/**
 The jitter source computed once by hand: started at zero, its first word is the one published for
 splitmix64.  Every shift, multiplier and exclusive or of the finaliser takes part.
 */
module KnownWord {
  import opened Words
  import opened JitterRNG
  import Delivery

  lemma ShrDivides(a: nat, k: nat)
    ensures Shr(a, k) == a / Pow2(k)
    decreases k
  {
    if k > 0 {
      ShrDivides(a / 2, k - 1);
      HalfThenRest(a, Pow2(k - 1));
    }
  }

  lemma HalfThenRest(a: nat, p: nat)
    requires p > 0
    ensures (a / 2) / p == a / (2 * p)
  {
    var q, r := a / (2 * p), a % (2 * p);
    assert a == q * (2 * p) + r;
    assert a / 2 == q * p + r / 2 && 0 <= r / 2 < p;
    QuotientIs(a / 2, p, q, r / 2);
  }

  lemma QuotientIs(x: nat, p: nat, q: nat, r: nat)
    requires p > 0 && x == q * p + r && r < p
    ensures x / p == q
  {
    var d := x / p - q;
    assert x == (x / p) * p + x % p;
    assert d * p == r - x % p;
    BelowOne(d, p);
    BelowOne(-d, p);
  }

  lemma BelowOne(d: int, p: int)
    requires p > 0 && d * p < p
    ensures d < 1
  {
  }

  /** Exclusive or of two numbers by their upper and lower 16 bits. */
  lemma XorBy16(a: nat, b: nat, c: nat, d: nat)
    requires c < 0x1_0000 && d < 0x1_0000
    ensures Xor(a * 0x1_0000 + c, b * 0x1_0000 + d) == Xor(a, b) * 0x1_0000 + Xor(c, d)
  {
    hide Pow2, Xor;
    Power16();
    XorSplits(16, a, b, c, d);
  }

  lemma Power16()
    ensures Pow2(16) == 0x1_0000
  {
    assert Pow2(4) == 16;
    hide Pow2;
    Pow2Doubled(4, 16);
    Pow2Doubled(8, 0x100);
  }

  lemma {:induction false} XorSplits(k: nat, a: nat, b: nat, c: nat, d: nat)
    requires c < Pow2(k) && d < Pow2(k)
    ensures Xor(a * Pow2(k) + c, b * Pow2(k) + d) == Xor(a, b) * Pow2(k) + Xor(c, d)
    decreases k
  {
    hide Xor;
    if k == 0 {
      XorSelf(0);
    } else {
      var p := Pow2(k - 1);
      XorSplits(k - 1, a, b, c / 2, d / 2);
      LowBit(a, p, c);
      LowBit(b, p, d);
      XorHalves(a * (2 * p) + c, b * (2 * p) + d);
      XorHalves(c, d);
    }
  }

  lemma LowBit(a: nat, p: nat, c: nat)
    ensures (a * (2 * p) + c) / 2 == a * p + c / 2 && (a * (2 * p) + c) % 2 == c % 2
  {
    assert a * (2 * p) == 2 * (a * p);
  }

  // Exclusive or of four bits by comparisons, for words that are written out.

  function XorBelow2(x: int, y: int): int {
    if x == y then 0 else 1
  }

  function XorBelow4(x: int, y: int): int {
    var p, q := if x >= 2 then 1 else 0, if y >= 2 then 1 else 0;
    XorBelow2(p, q) * 2 + XorBelow2(x - 2 * p, y - 2 * q)
  }

  function XorBelow16(x: int, y: int): int {
    var (p, x') := HighPair(x);
    var (q, y') := HighPair(y);
    XorBelow4(p, q) * 4 + XorBelow4(x', y')
  }

  /** The upper and the lower two of four bits. */
  function HighPair(x: int): (int, int) {
    if x >= 12 then (3, x - 12) else if x >= 8 then (2, x - 8) else if x >= 4 then (1, x - 4) else (0, x)
  }

  lemma XorIsBelow4(x: nat, y: nat)
    requires x < 4 && y < 4
    ensures Xor(x, y) == XorBelow4(x, y)
  {
    hide Xor;
    XorIsBelow2(x % 2, y % 2);
    XorIsBelow2(x / 2, y / 2);
    assert Pow2(1) == 2;
    XorSplits(1, x / 2, y / 2, x % 2, y % 2);
  }

  lemma XorIsBelow2(x: nat, y: nat)
    requires x < 2 && y < 2
    ensures Xor(x, y) == XorBelow2(x, y)
  {
    assert Xor(0, 0) == 0;
  }

  lemma XorIsBelow16(x: nat, y: nat)
    requires x < 16 && y < 16
    ensures Xor(x, y) == XorBelow16(x, y)
  {
    hide Xor, XorBelow4;
    var (p, x') := HighPair(x);
    var (q, y') := HighPair(y);
    XorIsBelow4(p, q);
    XorIsBelow4(x', y');
    assert Pow2(2) == 4;
    XorSplits(2, p, q, x', y');
  }

  /** Four digits of four bits. */
  function Digits(a: nat, b: nat, c: nat, d: nat): nat {
    ((a * 16 + b) * 16 + c) * 16 + d
  }

  lemma XorOfDigits(a: nat, b: nat, c: nat, d: nat, e: nat, f: nat, g: nat, h: nat)
    requires a < 16 && b < 16 && c < 16 && d < 16 && e < 16 && f < 16 && g < 16 && h < 16
    ensures Xor(Digits(a, b, c, d), Digits(e, f, g, h))
            == ((XorBelow16(a, e) * 16 + XorBelow16(b, f)) * 16 + XorBelow16(c, g)) * 16 + XorBelow16(d, h)
  {
    hide Xor, XorBelow16;
    assert Pow2(4) == 16;
    XorSplits(4, (a * 16 + b) * 16 + c, (e * 16 + f) * 16 + g, d, h);
    XorSplits(4, a * 16 + b, e * 16 + f, c, g);
    XorSplits(4, a, e, b, f);
    XorIsBelow16(a, e);
    XorIsBelow16(b, f);
    XorIsBelow16(c, g);
    XorIsBelow16(d, h);
  }

  /** Exclusive or of two words by their four parts of 16 bits. */
  lemma XorOfParts(a: seq<nat>, b: seq<nat>, r: seq<nat>)
    requires |a| == |b| == |r| == 4
    requires forall i :: 0 <= i < 4 ==> a[i] < 0x1_0000 && b[i] < 0x1_0000 && Xor(a[i], b[i]) == r[i]
    ensures Xor(OfParts(a), OfParts(b)) == OfParts(r)
  {
    hide Xor;
    XorBy16((a[0] * 0x1_0000 + a[1]) * 0x1_0000 + a[2], (b[0] * 0x1_0000 + b[1]) * 0x1_0000 + b[2], a[3], b[3]);
    XorBy16(a[0] * 0x1_0000 + a[1], b[0] * 0x1_0000 + b[1], a[2], b[2]);
    XorBy16(a[0], b[0], a[1], b[1]);
  }

  function OfParts(a: seq<nat>): nat
    requires |a| == 4
  {
    ((a[0] * 0x1_0000 + a[1]) * 0x1_0000 + a[2]) * 0x1_0000 + a[3]
  }

  lemma Power24()
    ensures Pow2(24) == 0x100_0000
  {
    assert Pow2(4) == 16;
    hide Pow2;
    Pow2Doubled(4, 16);
    Pow2Doubled(8, 0x100);
    Pow2Adds(8, 16);
  }

  lemma KnownXor30()
    ensures Xor(0x9E37_79B9_7F4A_7C15, 0x0000_0002_78DD_E6E5) == 0x9E37_79BB_0797_9AF0
  {
    hide Xor;
    XorOfDigits(9, 14, 3, 7, 0, 0, 0, 0);
    XorOfDigits(7, 9, 11, 9, 0, 0, 0, 2);
    XorOfDigits(7, 15, 4, 10, 7, 8, 13, 13);
    XorOfDigits(7, 12, 1, 5, 14, 6, 14, 5);
    XorOfParts([0x9E37, 0x79B9, 0x7F4A, 0x7C15], [0x0000, 0x0002, 0x78DD, 0xE6E5], [0x9E37, 0x79BB, 0x0797, 0x9AF0]);
  }

  lemma KnownShift30()
    ensures XorShift(0x9E37_79B9_7F4A_7C15, 30) == 0x9E37_79BB_0797_9AF0
  {
    hide Pow2, Xor;
    Power30();
    ShrDivides(0x9E37_79B9_7F4A_7C15, 30);
    assert 0x9E37_79B9_7F4A_7C15 / 1073741824 == 0x0000_0002_78DD_E6E5;
    KnownXor30();
  }

  lemma Power30()
    ensures Pow2(30) == 0x40000000
  {
    Power24();
    assert Pow2(6) == 64;
    Pow2Adds(24, 6);
  }

  lemma KnownXor27()
    ensures Xor(0x6F68_261B_57E7_A770, 0x0000_000D_ED04_C36A) == 0x6F68_2616_BAE3_641A
  {
    hide Xor;
    XorOfDigits(6, 15, 6, 8, 0, 0, 0, 0);
    XorOfDigits(2, 6, 1, 11, 0, 0, 0, 13);
    XorOfDigits(5, 7, 14, 7, 14, 13, 0, 4);
    XorOfDigits(10, 7, 7, 0, 12, 3, 6, 10);
    XorOfParts([0x6F68, 0x261B, 0x57E7, 0xA770], [0x0000, 0x000D, 0xED04, 0xC36A], [0x6F68, 0x2616, 0xBAE3, 0x641A]);
  }

  lemma KnownShift27()
    ensures XorShift(0x6F68_261B_57E7_A770, 27) == 0x6F68_2616_BAE3_641A
  {
    hide Pow2, Xor;
    Power27();
    ShrDivides(0x6F68_261B_57E7_A770, 27);
    assert 0x6F68_261B_57E7_A770 / 134217728 == 0x0000_000D_ED04_C36A;
    KnownXor27();
  }

  lemma Power27()
    ensures Pow2(27) == 0x8000000
  {
    Power24();
    assert Pow2(3) == 8;
    Pow2Adds(24, 3);
  }

  lemma KnownXor31()
    ensures Xor(0xE220_A838_BF5C_9DDE, 0x0000_0001_C441_5071) == 0xE220_A839_7B1D_CDAF
  {
    hide Xor;
    XorOfDigits(14, 2, 2, 0, 0, 0, 0, 0);
    XorOfDigits(10, 8, 3, 8, 0, 0, 0, 1);
    XorOfDigits(11, 15, 5, 12, 12, 4, 4, 1);
    XorOfDigits(9, 13, 13, 14, 5, 0, 7, 1);
    XorOfParts([0xE220, 0xA838, 0xBF5C, 0x9DDE], [0x0000, 0x0001, 0xC441, 0x5071], [0xE220, 0xA839, 0x7B1D, 0xCDAF]);
  }

  lemma KnownShift31()
    ensures XorShift(0xE220_A838_BF5C_9DDE, 31) == 0xE220_A839_7B1D_CDAF
  {
    hide Pow2, Xor;
    Power31();
    ShrDivides(0xE220_A838_BF5C_9DDE, 31);
    assert 0xE220_A838_BF5C_9DDE / 2147483648 == 0x0000_0001_C441_5071;
    KnownXor31();
  }

  lemma Power31()
    ensures Pow2(31) == 0x80000000
  {
    Power24();
    assert Pow2(7) == 128;
    Pow2Adds(24, 7);
  }

  /** The first word of the published splitmix64 sequence for seed zero. */
  lemma KnownWord()
    ensures Draw(0, 0) == 0xE220_A839_7B1D_CDAF
  {
    hide XorShift, Times;
    KnownShift30();
    KnownShift27();
    KnownShift31();
    KnownProducts();
    assert StateAfter(0, 1) == GAMMA;
  }

  lemma KnownProducts()
    ensures Times(0x9E37_79BB_0797_9AF0, MIX1) == 0x6F68_261B_57E7_A770
    ensures Times(0x6F68_2616_BAE3_641A, MIX2) == 0xE220_A838_BF5C_9DDE
  {
  }

  /** From the same state the first wait under a ceiling of 200 milliseconds, in nanoseconds. */
  lemma KnownWait()
    ensures Delivery.Jittered(0, 200_000_000).0 == 187_565_860
  {
    hide Draw;
    KnownWord();
  }
}
