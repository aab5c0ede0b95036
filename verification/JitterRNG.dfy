/**
 The jitter source: a splitmix64 step over an atomic 64-bit counter.  Words are integers in
 [0, 2^64) with the wrap-around written out.
 */
module Words {
  const M := 0x1_0000_0000_0000_0000

  type Word = n: int | 0 <= n < M

  function Pow2(k: nat): (p: int)
    ensures p >= 1
  {
    if k == 0 then 1 else 2 * Pow2(k - 1)
  }

  /** Bitwise exclusive or. */
  function Xor(a: nat, b: nat): nat
    decreases a + b
  {
    if a == 0 && b == 0 then 0 else (a % 2 + b % 2) % 2 + 2 * Xor(a / 2, b / 2)
  }

  lemma {:induction false} XorOfZero(a: nat)
    ensures Xor(a, 0) == a
  {
    if a > 0 {
      XorOfZero(a / 2);
    }
  }

  lemma {:induction false} XorSelf(a: nat)
    ensures Xor(a, a) == 0
  {
    if a > 0 {
      XorSelf(a / 2);
    }
  }

  lemma XorHalves(a: nat, b: nat)
    ensures Xor(a, b) / 2 == Xor(a / 2, b / 2) && Xor(a, b) % 2 == (a % 2 + b % 2) % 2
  {
  }

  lemma SameHalves(x: nat, y: nat)
    requires x / 2 == y / 2 && x % 2 == y % 2
    ensures x == y
  {
  }

  lemma ParityAssociates(x: int, y: int, z: int)
    ensures ((x % 2 + y % 2) % 2 + z % 2) % 2 == (x % 2 + (y % 2 + z % 2) % 2) % 2
  {
  }

  lemma {:induction false} XorAssociates(a: nat, b: nat, c: nat)
    ensures Xor(Xor(a, b), c) == Xor(a, Xor(b, c))
    decreases a + b + c
  {
    hide Xor;
    if a + b + c == 0 {
      XorSelf(0);
    } else {
      XorAssociates(a / 2, b / 2, c / 2);
      var ab, bc := Xor(a, b), Xor(b, c);
      XorHalves(a, b);
      XorHalves(b, c);
      XorHalves(ab, c);
      XorHalves(a, bc);
      ParityAssociates(a, b, c);
      SameHalves(Xor(ab, c), Xor(a, bc));
    }
  }

  /** Cancelling the middle term of a three-way exclusive or. */
  lemma XorCancels(a: nat, b: nat, c: nat)
    ensures Xor(Xor(a, b), Xor(b, c)) == Xor(a, c)
  {
    XorAssociates(a, b, Xor(b, c));
    XorAssociates(b, b, c);
    XorSelf(b);
    XorCommutes(0, c);
    XorOfZero(c);
  }

  lemma {:induction false} XorCommutes(a: nat, b: nat)
    ensures Xor(a, b) == Xor(b, a)
    decreases a + b
  {
    if a + b > 0 {
      XorCommutes(a / 2, b / 2);
    }
  }

  /** a >> k */
  function Shr(a: nat, k: nat): (r: nat)
    ensures r <= a
    decreases k
  {
    if k == 0 then a else Shr(a / 2, k - 1)
  }

  /** A right shift distributes over exclusive or. */
  lemma {:induction false} XorShifts(a: nat, b: nat, k: nat)
    ensures Shr(Xor(a, b), k) == Xor(Shr(a, k), Shr(b, k))
    decreases k
  {
    if k > 0 {
      XorHalves(a, b);
      XorShifts(a / 2, b / 2, k - 1);
    }
  }

  lemma {:induction false} ShiftTwice(a: nat, j: nat, k: nat)
    ensures Shr(Shr(a, j), k) == Shr(a, j + k)
    decreases j
  {
    if j > 0 {
      ShiftTwice(a / 2, j - 1, k);
    }
  }

  lemma {:induction false} ShiftedOut(a: nat, k: nat)
    requires a < Pow2(k)
    ensures Shr(a, k) == 0
    decreases k
  {
    if k > 0 {
      ShiftedOut(a / 2, k - 1);
    }
  }

  lemma {:induction false} XorBound(a: nat, b: nat, k: nat)
    requires a < Pow2(k) && b < Pow2(k)
    ensures Xor(a, b) < Pow2(k)
  {
    if k > 0 {
      XorBound(a / 2, b / 2, k - 1);
    }
  }

  lemma Pow2Adds(j: nat, k: nat)
    ensures Pow2(j + k) == Pow2(j) * Pow2(k)
    decreases j
  {
    if j > 0 {
      Pow2Adds(j - 1, k);
    }
  }

  lemma Pow2Doubled(k: nat, p: nat)
    requires Pow2(k) == p
    ensures Pow2(k + k) == p * p
  {
    Pow2Adds(k, k);
  }

  lemma PowersUsed()
    ensures Pow2(64) == M
  {
    assert Pow2(4) == 16;
    hide Pow2;
    Pow2Doubled(4, 16);
    Pow2Doubled(8, 0x100);
    Pow2Doubled(16, 0x1_0000);
    Pow2Doubled(32, 0x1_0000_0000);
  }

  lemma Pow2Quartered(k: nat)
    requires k >= 2
    ensures Pow2(k) == 4 * Pow2(k - 2)
  {
  }

  lemma Pow2Grows(j: nat, k: nat)
    requires j <= k
    ensures Pow2(j) <= Pow2(k)
    decreases k
  {
    if j < k {
      Pow2Grows(j, k - 1);
    }
  }

  function WordXor(a: Word, b: Word): (r: Word)
    ensures r == Xor(a, b)
  {
    PowersUsed();
    XorBound(a, b, 64);
    Xor(a, b)
  }

  /** z ^ (z >> k) */
  function XorShift(z: Word, k: nat): (y: Word) {
    WordXor(z, Shr(z, k))
  }

  /** Undoes `XorShift` for shifts of at least a third of the word: y ^ (y >> k) ^ (y >> 2k). */
  function UnXorShift(y: Word, k: nat): (z: Word) {
    WordXor(WordXor(y, Shr(y, k)), Shr(y, 2 * k))
  }

  lemma WordShiftedOut(z: Word, k: nat)
    requires 64 <= k
    ensures Shr(z, k) == 0
  {
    PowersUsed();
    Pow2Grows(64, k);
    ShiftedOut(z, k);
  }

  lemma XorShiftUndone(z: Word, k: nat)
    requires 64 <= 3 * k
    ensures UnXorShift(XorShift(z, k), k) == z
  {
    var a, b := Shr(z, k), Shr(z, 2 * k);
    var y := Xor(z, a);
    ShiftTwice(z, k, k);
    ShiftTwice(z, k, 2 * k);
    WordShiftedOut(z, 3 * k);
    XorShifts(z, a, k);
    XorShifts(z, a, 2 * k);
    assert Shr(y, k) == Xor(a, b);
    XorOfZero(b);
    assert Shr(y, 2 * k) == b;
    XorCancels(z, a, b);
    XorAssociates(z, b, b);
    XorSelf(b);
    XorOfZero(z);
  }

  lemma UnXorShiftUndone(y: Word, k: nat)
    requires 64 <= 3 * k
    ensures XorShift(UnXorShift(y, k), k) == y
  {
    var a, b := Shr(y, k), Shr(y, 2 * k);
    var ya := Xor(y, a);
    var z := Xor(ya, b);
    ShiftTwice(y, k, k);
    ShiftTwice(y, 2 * k, k);
    WordShiftedOut(y, 3 * k);
    XorShifts(y, a, k);
    XorShifts(ya, b, k);
    var ab := Xor(a, b);
    XorOfZero(ab);
    assert Shr(z, k) == ab;
    XorAssociates(y, a, b);
    XorAssociates(y, ab, ab);
    XorSelf(ab);
    XorOfZero(y);
  }

  /** Wrapping multiplication. */
  function Times(z: Word, c: Word): Word {
    (z * c) % M
  }
}

module JitterRNG {
  import opened Words

  const GAMMA: Word := 0x9E37_79B9_7F4A_7C15
  const MIX1: Word := 0xBF58_476D_1CE4_E5B9
  const MIX2: Word := 0x94D0_49BB_1331_11EB

  // Inverses of the three odd constants modulo 2^64.
  const GAMMA_INV: Word := 0xF1DE_83E1_9937_733D
  const MIX1_INV: Word := 0x96DE_1B17_3F11_9089
  const MIX2_INV: Word := 0x3196_42B2_D24D_8EC3

  /** The finaliser applied to the advanced counter. */
  function Mix(z: Word): Word {
    XorShift(Times(XorShift(Times(XorShift(z, 30), MIX1), 27), MIX2), 31)
  }

  function Unmix(y: Word): Word {
    UnXorShift(Times(UnXorShift(Times(UnXorShift(y, 31), MIX2_INV), 27), MIX1_INV), 30)
  }

  lemma Residue(x: int, z: Word, k: int)
    requires x == z + M * k
    ensures x % M == z
  {
  }

  lemma Mix1Undone(z: Word)
    ensures Times(Times(z, MIX1), MIX1_INV) == z
    ensures Times(Times(z, MIX1_INV), MIX1) == z
  {
    var q, r := z * MIX1 / M, z * MIX1_INV / M;
    Residue(Times(z, MIX1) * MIX1_INV, z, z * (MIX1 * MIX1_INV / M) - q * MIX1_INV);
    Residue(Times(z, MIX1_INV) * MIX1, z, z * (MIX1 * MIX1_INV / M) - r * MIX1);
  }

  lemma Mix2Undone(z: Word)
    ensures Times(Times(z, MIX2), MIX2_INV) == z
    ensures Times(Times(z, MIX2_INV), MIX2) == z
  {
    var q, r := z * MIX2 / M, z * MIX2_INV / M;
    Residue(Times(z, MIX2) * MIX2_INV, z, z * (MIX2 * MIX2_INV / M) - q * MIX2_INV);
    Residue(Times(z, MIX2_INV) * MIX2, z, z * (MIX2 * MIX2_INV / M) - r * MIX2);
  }

  /** The finaliser is a bijection on 64-bit words. */
  lemma MixIsBijective(z: Word)
    ensures Unmix(Mix(z)) == z && Mix(Unmix(z)) == z
  {
    var a := XorShift(z, 30);
    var b := XorShift(Times(a, MIX1), 27);
    XorShiftUndone(Times(b, MIX2), 31);
    Mix2Undone(b);
    XorShiftUndone(Times(a, MIX1), 27);
    Mix1Undone(a);
    XorShiftUndone(z, 30);
    var c := UnXorShift(z, 31);
    var d := UnXorShift(Times(c, MIX2_INV), 27);
    UnXorShiftUndone(Times(d, MIX1_INV), 30);
    Mix1Undone(d);
    UnXorShiftUndone(Times(c, MIX2_INV), 27);
    Mix2Undone(c);
    UnXorShiftUndone(z, 31);
  }

  /** The counter after `n` calls. */
  function StateAfter(seed: Word, n: nat): Word {
    if n == 0 then seed else (StateAfter(seed, n - 1) + GAMMA) % M
  }

  /** What the n-th call (counted from zero, in the order of the atomic additions) returns. */
  function Draw(seed: Word, n: nat): Word {
    Mix(StateAfter(seed, n + 1))
  }

  lemma {:induction false} StateClosedForm(seed: Word, n: nat)
    ensures StateAfter(seed, n) == (seed + n * GAMMA) % M
  {
    if n > 0 {
      StateClosedForm(seed, n - 1);
      var x := seed + (n - 1) * GAMMA;
      Residue(seed + n * GAMMA, StateAfter(seed, n), x / M + (x % M + GAMMA) / M);
    }
  }

  /** GAMMA has an inverse, so equal counters mean equal call numbers modulo 2^64. */
  lemma StepsAgree(seed: Word, i: nat, j: nat)
    requires StateAfter(seed, i) == StateAfter(seed, j)
    ensures i % M == j % M
  {
    StateClosedForm(seed, i);
    StateClosedForm(seed, j);
    var x, y := seed + i * GAMMA, seed + j * GAMMA;
    var k := x / M - y / M;
    assert (i - j) * GAMMA == k * M;
    GammaIsInvertible(i - j, k);
    var m :| i - j == M * m;
    Residue(i, j % M, j / M + m);
  }

  lemma GammaIsInvertible(d: int, k: int)
    requires d * GAMMA == k * M
    ensures exists m :: d == M * m
  {
    var c := GAMMA * GAMMA_INV / M;
    assert d == M * (k * GAMMA_INV - d * c);
  }

  /** Call numbers that agree modulo 2^64 find the counter in the same state. */
  lemma StateIsPeriodic(seed: Word, i: nat, j: nat)
    requires i % M == j % M
    ensures StateAfter(seed, i) == StateAfter(seed, j)
  {
    StateClosedForm(seed, i);
    StateClosedForm(seed, j);
    var a, b := i / M, j / M;
    assert i - j == (a - b) * M;
    assert (i - j) * GAMMA == M * ((a - b) * GAMMA);
    var x := seed + j * GAMMA;
    Residue(seed + i * GAMMA, x % M, x / M + (a - b) * GAMMA);
  }

  lemma NextCallsAgree(i: int, j: int)
    ensures (i + 1) % M == (j + 1) % M <==> i % M == j % M
  {
    if i % M == j % M {
      Residue(i + 1, (j + 1) % M, (j + 1) / M + i / M - j / M);
    } else if (i + 1) % M == (j + 1) % M {
      Residue(i, j % M, j / M + (i + 1) / M - (j + 1) / M);
    }
  }

  /**
   Full period: any 2^64 calls return pairwise different words, whichever goroutines make them, and
   two calls agree exactly when their numbers differ by a multiple of 2^64.
   */
  lemma DrawsAreDistinct(seed: Word, i: nat, j: nat)
    ensures Draw(seed, i) == Draw(seed, j) <==> i % M == j % M
  {
    var a, b := StateAfter(seed, i + 1), StateAfter(seed, j + 1);
    NextCallsAgree(i, j);
    if i % M == j % M {
      StateIsPeriodic(seed, i + 1, j + 1);
    } else {
      if a == b {
        StepsAgree(seed, i + 1, j + 1);
      }
      MixIsBijective(a);
      MixIsBijective(b);
    }
  }

  /** Every word is returned by one of the first 2^64 calls. */
  lemma EveryWordIsDrawn(seed: Word, v: Word)
    ensures exists n: nat :: n < M && Draw(seed, n) == v
  {
    MixIsBijective(v);
    var n := StateIsReached(seed, Unmix(v));
    assert Draw(seed, n) == v;
  }

  lemma StateIsReached(seed: Word, t: Word) returns (n: nat)
    ensures n < M && StateAfter(seed, n + 1) == t
  {
    var d := t - seed - GAMMA;
    n := CallReaching(d);
    var k :| (n + 1) * GAMMA == d + GAMMA + M * k;
    StateClosedForm(seed, n + 1);
    Residue(seed + (n + 1) * GAMMA, t, k);
  }

  lemma Reaching(n: int, q: int, d: int, c: int, g: int, inv: int, m: int)
    requires g * inv == m * c + 1 && d * inv == m * q + n
    ensures (n + 1) * g == d + g + m * (d * c - q * g)
  {
    calc {
      n * g;
    ==
      (d * inv - m * q) * g;
    ==
      d * (g * inv) - m * (q * g);
    ==
      d * (m * c + 1) - m * (q * g);
    ==
      d + m * (d * c - q * g);
    }
  }

  lemma CallReaching(d: int) returns (n: nat)
    ensures n < M && exists k :: (n + 1) * GAMMA == d + GAMMA + M * k
  {
    n := (d * GAMMA_INV) % M;
    var q := d * GAMMA_INV / M;
    var c := GAMMA * GAMMA_INV / M;
    assert GAMMA * GAMMA_INV == M * c + 1;
    assert d * GAMMA_INV == M * q + n;
    Reaching(n, q, d, c, GAMMA, GAMMA_INV, M);
  }

  class Jitter {
    var state: Word

    /** The seed is the clock reading with the lowest bit set. */
    constructor (unixNano: Word)
      ensures state % 2 == 1 && state / 2 == unixNano / 2
    {
      state := if unixNano % 2 == 0 then unixNano + 1 else unixNano;
    }

    method Next() returns (r: Word)
      modifies this
      ensures state == StateAfter(old(state), 1)
      ensures r == Draw(old(state), 0)
    {
      state := (state + GAMMA) % M;
      assert state == StateAfter(old(state), 1) by {
        assert StateAfter(old(state), 0) == old(state);
      }
      var z := state;
      z := Times(XorShift(z, 30), MIX1);
      z := Times(XorShift(z, 27), MIX2);
      r := XorShift(z, 31);
    }

    /** A value in [0, n), or 0 without drawing when n is not positive. */
    method Intn(n: int) returns (r: int)
      requires -0x8000_0000_0000_0000 <= n < 0x8000_0000_0000_0000
      modifies this
      ensures n > 0 ==> 0 <= r < n && r == Draw(old(state), 0) % n && state == StateAfter(old(state), 1)
      ensures n <= 0 ==> r == 0 && state == old(state)
    {
      if n <= 0 {
        return 0;
      }
      var w := Next();
      r := w % n;
    }
  }

  /** Numbering calls from a later counter value continues the same sequence. */
  lemma {:induction false} StatesContinue(seed: Word, m: nat, n: nat)
    ensures StateAfter(StateAfter(seed, m), n) == StateAfter(seed, m + n)
  {
    if n > 0 {
      StatesContinue(seed, m, n - 1);
    }
  }

  /** Every word is the first draw from some seed. */
  lemma SeedDrawing(v: Word) returns (seed: Word)
    ensures Draw(seed, 0) == v
  {
    hide Mix, StateAfter;
    EveryWordIsDrawn(0, v);
    var n: nat :| n < M && Draw(0, n) == v;
    seed := StateAfter(0, n);
    StatesContinue(0, n, 1);
  }
}
