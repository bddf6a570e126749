/** Bit arithmetic on natural numbers, and numbers written as fixed-width words. */
module Bits {
  function Pow2(n: nat): (p: nat)
    ensures p > 0
  {
    if n == 0 then 1 else 2 * Pow2(n - 1)
  }

  /** A word of `w` one bits. */
  function Max(w: nat): nat {
    Pow2(w) - 1
  }

  lemma ProductSign(a: int, b: nat)
    requires a <= 0
    ensures a * b <= 0
  {
  }

  lemma DivMod(x: nat, d: nat)
    requires d > 0
    ensures 0 <= x / d && 0 <= x % d <= x
  {
    var q, r := x / d, x % d;
    assert x == q * d + r && r < d;
    if q < 0 {
      ProductSign(q + 1, d);
    } else {
      assert q * d >= 0;
    }
  }

  /** `x << k`, `x >> k` and the `k` low bits of `x`. */
  function Shl(x: nat, k: nat): nat {
    x * Pow2(k)
  }

  function Hi(x: nat, k: nat): nat {
    DivMod(x, Pow2(k));
    x / Pow2(k)
  }

  function Lo(x: nat, k: nat): nat {
    x % Pow2(k)
  }

  /** Number of bits in `n` words. */
  function Width(n: nat, w: nat): nat {
    n * w
  }

  // ---------------------------------------------------------------- shifting

  lemma DivModUnique(x: nat, d: nat, q: nat, r: nat)
    requires d > 0 && r < d && x == q * d + r
    ensures x / d == q && x % d == r
  {
    var q', r' := x / d, x % d;
    assert x == q' * d + r';
    if q' < q {
      MulMono(q' + 1, q, d);
    } else if q < q' {
      MulMono(q + 1, q', d);
    }
  }

  lemma MulMono(a: nat, b: nat, c: nat)
    requires a <= b
    ensures a * c <= b * c
  {
  }

  /** A number is put together from its high and its low bits, in one way only. */
  lemma Split(x: nat, k: nat)
    ensures x == Shl(Hi(x, k), k) + Lo(x, k) && Lo(x, k) < Pow2(k)
  {
  }

  lemma SplitUnique(q: nat, r: nat, k: nat)
    requires r < Pow2(k)
    ensures Hi(Shl(q, k) + r, k) == q && Lo(Shl(q, k) + r, k) == r
  {
    DivModUnique(Shl(q, k) + r, Pow2(k), q, r);
  }

  lemma ShlAdd(x: nat, y: nat, k: nat)
    ensures Shl(x + y, k) == Shl(x, k) + Shl(y, k)
    ensures Shl(0, k) == 0 && Shl(1, k) == Pow2(k)
  {
  }

  lemma ShlMono(x: nat, y: nat, k: nat)
    requires x <= y
    ensures Shl(x, k) <= Shl(y, k)
  {
    MulMono(x, y, Pow2(k));
  }

  lemma {:induction false} Pow2Add(a: nat, b: nat)
    ensures Pow2(a + b) == Shl(Pow2(a), b)
  {
    hide Shl;
    if a > 0 {
      Pow2Add(a - 1, b);
      ShlDouble(Pow2(a - 1), b);
    } else {
      ShlAdd(0, 0, b);
    }
  }

  lemma ShlDouble(x: nat, b: nat)
    ensures Shl(2 * x, b) == 2 * Shl(x, b)
  {
    hide Pow2;
    MulAssoc(2, x, Pow2(b));
  }

  lemma MulAssoc(a: nat, b: nat, c: nat)
    ensures (a * b) * c == a * (b * c)
  {
  }

  lemma ShlShl(x: nat, a: nat, b: nat)
    ensures Shl(Shl(x, a), b) == Shl(x, a + b)
  {
    hide Pow2;
    Pow2Add(a, b);
    MulAssoc(x, Pow2(a), Pow2(b));
  }

  /** Room for low bits: `x` below a power of two and `y` below another. */
  lemma ShlBound(x: nat, a: nat, y: nat, b: nat)
    requires x < Pow2(a) && y < Pow2(b)
    ensures Shl(x, b) + y < Pow2(a + b)
  {
    hide Pow2, Shl;
    ShlMono(x + 1, Pow2(a), b);
    ShlAdd(x, 1, b);
    Pow2Add(a, b);
  }

  /** All ones above all ones. */
  lemma JoinOnes(a: nat, b: nat)
    ensures Shl(Max(a), b) + Max(b) == Max(a + b)
  {
    Pow2Add(a, b);
    ShlAdd(Max(a), 1, b);
  }

  /** Cutting at or above the place where two parts were put together. */
  lemma CutAbove(x: nat, y: nat, a: nat, p: nat)
    requires y < Pow2(a)
    ensures Hi(Shl(x, a) + y, p + a) == Hi(x, p)
    ensures Lo(Shl(x, a) + y, p + a) == Shl(Lo(x, p), a) + y
  {
    hide *;
    Split(x, p);
    var q, r := Hi(x, p), Lo(x, p);
    ShlAdd(Shl(q, p), r, a);
    ShlShl(q, p, a);
    ShlBound(r, p, y, a);
    SplitUnique(q, Shl(r, a) + y, p + a);
  }

  /** Cutting below that place. */
  lemma CutBelow(x: nat, y: nat, a: nat, p: nat)
    requires p <= a
    ensures Hi(Shl(x, a) + y, p) == Shl(x, a - p) + Hi(y, p)
    ensures Lo(Shl(x, a) + y, p) == Lo(y, p)
  {
    hide *;
    Split(y, p);
    ShlShl(x, a - p, p);
    ShlAdd(Shl(x, a - p), Hi(y, p), p);
    SplitUnique(Shl(x, a - p) + Hi(y, p), Lo(y, p), p);
  }

  lemma HiBound(d: nat, w: nat, p: nat)
    requires d < Pow2(w) && p <= w
    ensures Hi(d, p) < Pow2(w - p)
  {
    hide *;
    Split(d, p);
    Pow2Add(w - p, p);
    if Hi(d, p) >= Pow2(w - p) {
      ShlMono(Pow2(w - p), Hi(d, p), p);
    }
  }

  lemma ShlEven(x: nat, k: nat, c: nat)
    requires k > 0
    ensures (Shl(x, k) + c) % 2 == c % 2
  {
    assert x * Pow2(k) == 2 * (x * Pow2(k - 1));
  }

  /** When the low `k` bits are all 0, or all 1, so are the fewer bits below `j`, and bit `j`
      itself. */
  lemma LowBits(x: nat, k: nat, j: nat)
    requires j < k
    ensures Lo(x, k) == 0 ==> Lo(x, j) == 0 && Hi(x, j) % 2 == 0
    ensures Lo(x, k) == Max(k) ==> Lo(x, j) == Max(j) && Hi(x, j) % 2 == 1
  {
    hide Hi, Lo, Shl, Pow2;
    Split(x, k);
    CutBelow(Hi(x, k), Lo(x, k), k, j);
    ShlEven(Hi(x, k), k - j, Hi(Lo(x, k), j));
    if Lo(x, k) == 0 {
      ShlAdd(0, 0, j);
      SplitUnique(0, 0, j);
    }
    if Lo(x, k) == Max(k) {
      JoinOnes(k - j, j);
      SplitUnique(Max(k - j), Max(j), j);
      OddMax(k - j);
    }
  }

  lemma OddMax(n: nat)
    requires n > 0
    ensures Max(n) % 2 == 1
  {
  }

  // ---------------------------------------------------------------- bitwise operators

  function Or(x: nat, y: nat): nat
    decreases x + y
  {
    if x == 0 && y == 0 then 0
    else 2 * Or(x / 2, y / 2) + (if x % 2 == 1 || y % 2 == 1 then 1 else 0)
  }

  function And(x: nat, y: nat): nat
    decreases x + y
  {
    if x == 0 && y == 0 then 0
    else 2 * And(x / 2, y / 2) + (if x % 2 == 1 && y % 2 == 1 then 1 else 0)
  }

  function Xor(x: nat, y: nat): nat
    decreases x + y
  {
    if x == 0 && y == 0 then 0
    else 2 * Xor(x / 2, y / 2) + (if x % 2 != y % 2 then 1 else 0)
  }

  /** `~x` in a word of `w` bits. */
  function Not(x: nat, w: nat): nat
    requires x < Pow2(w)
  {
    Max(w) - x
  }

  lemma {:induction false} XorIsZero(x: nat, y: nat)
    ensures Xor(x, y) == 0 <==> x == y
    decreases x + y
  {
    if x != 0 || y != 0 {
      XorIsZero(x / 2, y / 2);
    }
  }

  lemma Halve(x: nat, p: nat)
    requires p > 0
    ensures Hi(x, p) == Hi(x / 2, p - 1)
    ensures Lo(x, p) == 2 * Lo(x / 2, p - 1) + x % 2
  {
    assert Pow2(1) == 2;
    CutAbove(x / 2, x % 2, 1, p - 1);
  }

  lemma HiZero(x: nat)
    ensures Hi(x, 0) == x && Lo(x, 0) == 0
  {
  }

  /** Shifting out the low bits of an exclusive or leaves zero exactly when the two words
      agree on the bits that remain. */
  lemma {:induction false} XorShift(x: nat, y: nat, p: nat)
    ensures Hi(Xor(x, y), p) == 0 <==> Hi(x, p) == Hi(y, p)
    decreases p
  {
    hide Hi, Lo, Pow2;
    if p == 0 {
      XorIsZero(x, y);
      HiZero(x);
      HiZero(y);
      HiZero(Xor(x, y));
    } else {
      XorShift(x / 2, y / 2, p - 1);
      Halve(x, p);
      Halve(y, p);
      Halve(Xor(x, y), p);
    }
  }

  /** `x | mask` with a mask of `r` ones. */
  lemma {:induction false} OrMask(x: nat, r: nat)
    ensures Or(x, Max(r)) == x - Lo(x, r) + Max(r)
    decreases r, x
  {
    hide Hi, Lo;
    if r == 0 {
      OrZero(x);
      HiZero(x);
    } else {
      OrMask(x / 2, r - 1);
      Halve(x, r);
      assert Max(r) / 2 == Max(r - 1) && Max(r) % 2 == 1;
    }
  }

  lemma {:induction false} OrZero(x: nat)
    ensures Or(x, 0) == x
  {
    if x > 0 {
      OrZero(x / 2);
    }
  }

  lemma {:induction false} MaxMono(r: nat, w: nat)
    requires r <= w
    ensures Max(r) < Pow2(w)
    decreases w
  {
    if r < w {
      MaxMono(r, w - 1);
    }
  }

  /** `x & ~mask`. */
  lemma {:induction false} AndMask(x: nat, r: nat, w: nat)
    requires x < Pow2(w) && r <= w
    ensures Max(r) < Pow2(w)
    ensures And(x, Not(Max(r), w)) == x - Lo(x, r)
    decreases w, x
  {
    hide Hi, Lo, Max;
    MaxMono(r, w);
    if w == 0 {
      HiZero(x);
    } else {
      MaxHalf(w);
      if r == 0 {
        MaxZero();
        AndMask(x / 2, 0, w - 1);
        HiZero(x);
        HiZero(x / 2);
      } else {
        MaxMono(r - 1, w - 1);
        MaxHalf(r);
        Halve(x, r);
        AndMask(x / 2, r - 1, w - 1);
      }
    }
  }

  lemma MaxZero()
    ensures Max(0) == 0
  {
  }

  lemma MaxHalf(w: nat)
    requires w > 0
    ensures Max(w) == 2 * Max(w - 1) + 1
  {
  }

  // ---------------------------------------------------------------- counting bits

  /** Number of trailing zeros of a word of `w` bits; the whole width for zero. */
  function TrailingZeros(v: nat, w: nat): (t: nat)
    requires v < Pow2(w)
    ensures t <= w
  {
    if w == 0 || v % 2 == 1 then 0 else 1 + TrailingZeros(v / 2, w - 1)
  }

  function TrailingOnes(v: nat, w: nat): (t: nat)
    requires v < Pow2(w)
    ensures t <= w
  {
    TrailingZeros(Not(v, w), w)
  }

  lemma {:induction false} TrailingZerosCount(v: nat, w: nat)
    requires v < Pow2(w)
    ensures var t := TrailingZeros(v, w);
            Lo(v, t) == 0 && (t < w ==> Hi(v, t) % 2 == 1)
    ensures v == 0 ==> TrailingZeros(v, w) == w
    decreases w
  {
    hide Hi, Lo;
    var t := TrailingZeros(v, w);
    if t > 0 {
      TrailingZerosCount(v / 2, w - 1);
      Halve(v, t);
    } else {
      HiZero(v);
    }
  }

  lemma {:induction false} TrailingOnesCount(v: nat, w: nat)
    requires v < Pow2(w)
    ensures var t := TrailingOnes(v, w);
            Lo(v, t) == Max(t) && (t < w ==> Hi(v, t) % 2 == 0)
    decreases w
  {
    hide Hi, Lo;
    var t := TrailingOnes(v, w);
    HiZero(v);
    if w > 0 {
      assert Max(w) == 2 * Max(w - 1) + 1;
      if t > 0 {
        assert Not(v, w) / 2 == Not(v / 2, w - 1);
        TrailingOnesCount(v / 2, w - 1);
        Halve(v, t);
      }
    }
  }

  // ---------------------------------------------------------------- numbers in words

  predicate IsWords(h: seq<nat>, w: nat) {
    forall i :: 0 <= i < |h| ==> h[i] < Pow2(w)
  }

  /** The number that a sequence of `w`-bit words denotes, most significant word first. */
  function Number(h: seq<nat>, w: nat): nat {
    if h == [] then 0 else Shl(Number(h[..|h| - 1], w), w) + h[|h| - 1]
  }

  lemma NumberSnoc(a: seq<nat>, d: nat, w: nat)
    ensures Number(a + [d], w) == Shl(Number(a, w), w) + d
  {
    assert (a + [d])[..|a|] == a;
  }

  lemma WidthStep(n: nat, w: nat)
    ensures Width(n + 1, w) == Width(n, w) + w
    ensures Width(0, w) == 0
  {
  }

  lemma {:induction false} NumberBound(h: seq<nat>, w: nat)
    requires IsWords(h, w)
    ensures Number(h, w) < Pow2(Width(|h|, w))
  {
    hide Shl, Width;
    if h != [] {
      var a, d := h[..|h| - 1], h[|h| - 1];
      NumberBound(a, w);
      WidthStep(|a|, w);
      ShlBound(Number(a, w), Width(|a|, w), d, w);
    }
  }

  lemma {:induction false} NumberConcat(a: seq<nat>, b: seq<nat>, w: nat)
    ensures Number(a + b, w) == Shl(Number(a, w), Width(|b|, w)) + Number(b, w)
  {
    hide Shl, Width, Pow2;
    WidthStep(0, w);
    if b == [] {
      assert a + b == a;
      ShlNothing(Number(a, w));
    } else {
      var c, d := b[..|b| - 1], b[|b| - 1];
      NumberConcat(a, c, w);
      assert a + b == (a + c) + [d];
      NumberSnoc(a + c, d, w);
      WidthStep(|c|, w);
      ShlAdd(Shl(Number(a, w), Width(|c|, w)), Number(c, w), w);
      ShlShl(Number(a, w), Width(|c|, w), w);
    }
  }

  lemma ShlNothing(x: nat)
    ensures Shl(x, 0) == x
  {
  }

  /** Different words, different numbers. */
  lemma {:induction false} NumberInjective(a: seq<nat>, b: seq<nat>, w: nat)
    requires IsWords(a, w) && IsWords(b, w) && |a| == |b|
    ensures Number(a, w) == Number(b, w) <==> a == b
  {
    hide Shl, Pow2;
    if a != [] {
      var a1, b1 := a[..|a| - 1], b[..|b| - 1];
      NumberInjective(a1, b1, w);
      SplitUnique(Number(a1, w), a[|a| - 1], w);
      SplitUnique(Number(b1, w), b[|b| - 1], w);
      assert a == a1 + [a[|a| - 1]] && b == b1 + [b[|b| - 1]];
    }
  }
}
