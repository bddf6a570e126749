/** Address blocks: recognising them (`calcprefix` of hostaddress.cpp) and computing their
    ends from `ip/prefix` (`parse_ip_range` of hostaddress.hpp). Everything here is stated
    for any number of words of any width. */
module Prefix {
  import opened Options
  import opened Bits

  /** The interval from `f` to `t` is a block of 2^k addresses (section 3.1 of RFC 4632): the
      bits above the low `k` agree, and the low `k` are all 0 in `f` and all 1 in `t`. */
  predicate IsBlock(f: nat, t: nat, k: nat) {
    Hi(f, k) == Hi(t, k) && Lo(f, k) == 0 && Lo(t, k) == Max(k)
  }

  /** Once the longest stretch of low bits is known that are 0 in `f` and 1 in `t`, no other
      length can make a block. */
  lemma OnlyCandidate(f: nat, t: nat, k: nat, other: nat, width: nat)
    requires Lo(f, k) == 0 && Lo(t, k) == Max(k)
    requires k < width ==> Hi(f, k) % 2 == 1 || Hi(t, k) % 2 == 0
    requires other <= width && IsBlock(f, t, other)
    ensures other == k
  {
    hide Hi, Lo, Pow2, Max;
    if other < k {
      LowBits(f, k, other);
      LowBits(t, k, other);
    } else if k < other {
      LowBits(f, other, k);
      LowBits(t, other, k);
    }
  }

  /** The size of a block is determined by its ends. */
  lemma BlockSizeIsUnique(f: nat, t: nat, k: nat, other: nat)
    requires IsBlock(f, t, k) && IsBlock(f, t, other)
    ensures k == other
  {
    hide Hi, Lo, Pow2, Max;
    if other < k {
      LowBits(f, k, other);
      LowBits(t, k, other);
    } else if k < other {
      LowBits(f, other, k);
      LowBits(t, other, k);
    }
  }

  // ---------------------------------------------------------------- words and bits

  /** Number of low bits when the cut is `part` bits into word `i` of `n`. */
  function Cut(n: nat, w: nat, i: nat, part: nat): nat
    requires i < n
  {
    part + Width(n - 1 - i, w)
  }

  /** The number above and below such a cut. */
  lemma CutWord(h: seq<nat>, w: nat, i: nat, part: nat)
    requires IsWords(h, w) && i < |h| && part <= w
    ensures Hi(Number(h, w), Cut(|h|, w, i, part)) == Shl(Number(h[..i], w), w - part) + Hi(h[i], part)
    ensures Lo(Number(h, w), Cut(|h|, w, i, part))
         == Shl(Lo(h[i], part), Width(|h| - 1 - i, w)) + Number(h[i + 1..], w)
  {
    hide Number, Shl, Hi, Lo, Pow2, Width;
    var a, b := h[..i], h[i + 1..];
    assert h == (a + [h[i]]) + b;
    NumberConcat(a + [h[i]], b, w);
    NumberSnoc(a, h[i], w);
    NumberBound(b, w);
    CutAbove(Number(a + [h[i]], w), Number(b, w), Width(|b|, w), part);
    CutBelow(Number(a, w), h[i], w, part);
  }

  /** Words that are all zero, or all full. */
  lemma {:induction false} NumberOfZeros(h: seq<nat>, w: nat)
    requires forall i :: 0 <= i < |h| ==> h[i] == 0
    ensures Number(h, w) == 0
  {
    if h != [] {
      NumberOfZeros(h[..|h| - 1], w);
      ShlAdd(0, 0, w);
    }
  }

  lemma {:induction false} NumberOfOnes(h: seq<nat>, w: nat)
    requires forall i :: 0 <= i < |h| ==> h[i] == Max(w)
    ensures Number(h, w) == Max(Width(|h|, w))
  {
    hide Max, Shl, Width;
    if h == [] {
      WidthStep(0, w);
      MaxZero();
    } else {
      NumberOfOnes(h[..|h| - 1], w);
      WidthStep(|h| - 1, w);
      JoinOnes(Width(|h| - 1, w), w);
    }
  }

  /** The words behind word `i` are exhausted: all zeros in `from`, all ones in `to`. */
  predicate FilledBehind(from: seq<nat>, to: seq<nat>, w: nat, i: nat)
    requires |from| == |to|
  {
    forall j :: i < j < |from| ==> from[j] == 0 && to[j] == Max(w)
  }

  /** What the two bit counts of `calcprefix` establish about the whole numbers. */
  lemma LowPart(from: seq<nat>, to: seq<nat>, w: nat, i: nat, part: nat)
    requires |from| == |to| && IsWords(from, w) && IsWords(to, w) && i < |from|
    requires FilledBehind(from, to, w, i)
    requires part <= w && Lo(from[i], part) == 0 && Lo(to[i], part) == Max(part)
    ensures Lo(Number(from, w), Cut(|from|, w, i, part)) == 0
    ensures Lo(Number(to, w), Cut(|from|, w, i, part)) == Max(Cut(|from|, w, i, part))
  {
    hide Number, Shl, Hi, Lo, Pow2, Width, Max;
    var n := |from| - 1 - i;
    NumberOfZeros(from[i + 1..], w);
    NumberOfOnes(to[i + 1..], w);
    CutWord(from, w, i, part);
    CutWord(to, w, i, part);
    ShlAdd(0, 0, Width(n, w));
    JoinOnes(part, Width(n, w));
  }

  /** The first bit above the cut. */
  lemma NextBit(h: seq<nat>, w: nat, i: nat, part: nat)
    requires IsWords(h, w) && i < |h| && part < w
    ensures Hi(Number(h, w), Cut(|h|, w, i, part)) % 2 == Hi(h[i], part) % 2
  {
    hide Number, Shl, Hi, Lo, Pow2, Width, Max;
    CutWord(h, w, i, part);
    ShlEven(Number(h[..i], w), w - part, Hi(h[i], part));
  }

  /** The words in front agree exactly when the numbers agree above the cut. */
  lemma HighPart(from: seq<nat>, to: seq<nat>, w: nat, i: nat, part: nat)
    requires |from| == |to| && IsWords(from, w) && IsWords(to, w) && i < |from| && part <= w
    ensures Hi(Number(from, w), Cut(|from|, w, i, part)) == Hi(Number(to, w), Cut(|from|, w, i, part))
       <==> from[..i] == to[..i] && Hi(from[i], part) == Hi(to[i], part)
  {
    hide Number, Shl, Hi, Lo, Pow2, Width, Max;
    var a, b := from[..i], to[..i];
    NumberInjective(a, b, w);
    CutWord(from, w, i, part);
    CutWord(to, w, i, part);
    HiBound(from[i], w, part);
    HiBound(to[i], w, part);
    SplitUnique(Number(a, w), Hi(from[i], part), w - part);
    SplitUnique(Number(b, w), Hi(to[i], part), w - part);
  }

  // ---------------------------------------------------------------- calcprefix

  lemma Shrink(f: nat, t: nat, zeros: nat, ones: nat, part: nat)
    requires part == if zeros < ones then zeros else ones
    requires Lo(f, zeros) == 0 && Lo(t, ones) == Max(ones)
    ensures Lo(f, part) == 0 && Lo(t, part) == Max(part)
  {
    if part < zeros {
      LowBits(f, zeros, part);
    }
    if part < ones {
      LowBits(t, ones, part);
    }
  }

  lemma Exhausted(f: nat, t: nat, w: nat)
    requires f < Pow2(w) && t < Pow2(w) && Lo(f, w) == 0 && Lo(t, w) == Max(w)
    ensures f == 0 && t == Max(w)
  {
    ShlAdd(0, 0, w);
    SplitUnique(0, f, w);
    SplitUnique(0, t, w);
  }

  /** First loop of `calcprefix`: walk from the last word forward while a word is exhausted,
      adding up the bits. */
  method CountSubnetBits(from: seq<nat>, to: seq<nat>, w: nat) returns (i: nat, part: nat, subnetWidth: nat)
    requires |from| == |to| > 0 && w > 0 && IsWords(from, w) && IsWords(to, w)
    ensures i < |from| && part <= w && subnetWidth == Cut(|from|, w, i, part)
    ensures FilledBehind(from, to, w, i)
    ensures Lo(from[i], part) == 0 && Lo(to[i], part) == Max(part)
    ensures part == w ==> i == 0
    ensures part < w ==> Hi(from[i], part) % 2 == 1 || Hi(to[i], part) % 2 == 0
  {
    hide Pow2, TrailingZeros, TrailingOnes, Hi, Lo, Max, Width;
    subnetWidth := 0;
    part := 0;
    i := |from|;
    WidthStep(0, w);
    while true
      invariant 0 < i <= |from|
      invariant subnetWidth == Width(|from| - i, w)
      invariant FilledBehind(from, to, w, i - 1)
      decreases i
    {
      i := i - 1;
      var zeros, ones := TrailingZeros(from[i], w), TrailingOnes(to[i], w);
      TrailingZerosCount(from[i], w);
      TrailingOnesCount(to[i], w);
      part := if zeros < ones then zeros else ones;
      Shrink(from[i], to[i], zeros, ones, part);
      subnetWidth := subnetWidth + part;
      if part != w || i == 0 {
        break;
      }
      Exhausted(from[i], to[i], w);
      WidthStep(|from| - 1 - i, w);
    }
  }

  /** Second loop of `calcprefix`: compare the words from `i` forward, the first one without
      its low `part` bits. */
  method SameAbove(from: seq<nat>, to: seq<nat>, w: nat, i: nat, part: nat) returns (same: bool)
    requires |from| == |to| && i < |from|
    ensures same <==> from[..i] == to[..i] && Hi(from[i], part) == Hi(to[i], part)
  {
    hide Xor, Hi, Lo, Pow2;
    var j, p := i, part;
    while true
      invariant 0 <= j <= i && p == if j == i then part else 0
      invariant j < i ==> Hi(from[i], part) == Hi(to[i], part)
      invariant forall m :: j < m < i ==> from[m] == to[m]
      decreases j
    {
      XorShift(from[j], to[j], p);
      HiZero(from[j]);
      HiZero(to[j]);
      if Hi(Xor(from[j], to[j]), p) != 0 {
        assert j < i ==> from[..i][j] != to[..i][j];
        return false;
      }
      p := 0;
      if j == 0 {
        return true;
      }
      j := j - 1;
    }
  }

  lemma CutWithin(n: nat, w: nat, i: nat, part: nat)
    requires i < n && part <= w
    ensures Cut(n, w, i, part) <= Width(n, w)
    ensures i == 0 && part == w ==> Cut(n, w, i, part) == Width(n, w)
  {
    MulMono(n - 1 - i, n - 1, w);
    assert (n - 1) * w == n * w - w;
  }

  /** `calcprefix`: the prefix length of the block that the interval is, if it is one. */
  method CalcPrefix(from: seq<nat>, to: seq<nat>, w: nat) returns (r: Option<nat>)
    requires |from| == |to| > 0 && w > 0 && IsWords(from, w) && IsWords(to, w)
    ensures match r
            case Some(p) =>
              && p <= Width(|from|, w)
              && IsBlock(Number(from, w), Number(to, w), Width(|from|, w) - p)
            case None =>
              forall k: nat :: k <= Width(|from|, w) ==> !IsBlock(Number(from, w), Number(to, w), k)
  {
    hide Number, Hi, Lo, Pow2, Width, Max, IsWords, Cut;
    var i, part, subnetWidth := CountSubnetBits(from, to, w);
    CutWithin(|from|, w, i, part);
    var same := SameAbove(from, to, w, i, part);
    LowPart(from, to, w, i, part);
    HighPart(from, to, w, i, part);
    if same {
      return Some(Width(|from|, w) - subnetWidth);
    }
    if part < w {
      NextBit(from, w, i, part);
      NextBit(to, w, i, part);
    }
    var f, t, width := Number(from, w), Number(to, w), Width(|from|, w);
    forall k: nat | k <= width
      ensures !IsBlock(f, t, k)
    {
      if IsBlock(f, t, k) {
        OnlyCandidate(f, t, subnetWidth, k, width);
      }
    }
    r := None;
  }

  // ---------------------------------------------------------------- ip/prefix

  lemma LoSmall(d: nat, k: nat)
    ensures Lo(d, k) <= d
  {
    DivMod(d, Pow2(k));
  }

  /** A word with its low bits cleared, and set. */
  function Cleared(d: nat, k: nat): nat {
    LoSmall(d, k);
    d - Lo(d, k)
  }

  function Filled(d: nat, k: nat): nat {
    Cleared(d, k) + Max(k)
  }

  /** The first address of the block of 2^k addresses around `h`. */
  function LowEnd(h: seq<nat>, w: nat, k: nat): (r: seq<nat>)
    requires w > 0
    ensures |r| == |h|
    decreases |h|
  {
    if h == [] then []
    else if k >= w then LowEnd(h[..|h| - 1], w, k - w) + [0]
    else h[..|h| - 1] + [Cleared(h[|h| - 1], k)]
  }

  /** The last address of that block. */
  function HighEnd(h: seq<nat>, w: nat, k: nat): (r: seq<nat>)
    requires w > 0
    ensures |r| == |h|
    decreases |h|
  {
    if h == [] then []
    else if k >= w then HighEnd(h[..|h| - 1], w, k - w) + [Max(w)]
    else h[..|h| - 1] + [Filled(h[|h| - 1], k)]
  }

  lemma {:induction false} EndsAreNumbers(h: seq<nat>, w: nat, k: nat)
    requires w > 0 && k <= Width(|h|, w) && IsWords(h, w)
    ensures IsWords(LowEnd(h, w, k), w) && IsWords(HighEnd(h, w, k), w)
    ensures Number(LowEnd(h, w, k), w) == Cleared(Number(h, w), k)
    ensures Number(HighEnd(h, w, k), w) == Filled(Number(h, w), k)
    decreases |h|
  {
    hide Shl, Hi, Lo, Pow2, Width, Max, Number, Cleared, Filled;
    if h == [] {
      hide *;
      NoEnds(w, k);
    } else {
      var a, d := h[..|h| - 1], h[|h| - 1];
      assert h == a + [d];
      NumberSnoc(a, d, w);
      WidthStep(|a|, w);
      MaxBelow(w);
      if k >= w {
        EndsAreNumbers(a, w, k - w);
        NumberSnoc(LowEnd(a, w, k - w), 0, w);
        NumberSnoc(HighEnd(a, w, k - w), Max(w), w);
        EndAbove(Number(a, w), d, w, k - w);
      } else {
        NumberSnoc(a, Cleared(d, k), w);
        NumberSnoc(a, Filled(d, k), w);
        EndBelow(Number(a, w), d, w, k);
      }
    }
  }

  lemma NoEnds(w: nat, k: nat)
    requires w > 0 && k <= Width(0, w)
    ensures IsWords(LowEnd([], w, k), w) && IsWords(HighEnd([], w, k), w)
    ensures Number(LowEnd([], w, k), w) == Cleared(Number([], w), k)
    ensures Number(HighEnd([], w, k), w) == Filled(Number([], w), k)
  {
    WidthStep(0, w);
    HiZero(0);
    MaxZero();
  }

  lemma MaxBelow(w: nat)
    ensures Max(w) + 1 == Pow2(w)
  {
  }

  lemma EndBelow(a: nat, d: nat, w: nat, k: nat)
    requires d < Pow2(w) && k <= w
    ensures Shl(a, w) + Cleared(d, k) == Cleared(Shl(a, w) + d, k)
    ensures Shl(a, w) + Filled(d, k) == Filled(Shl(a, w) + d, k)
    ensures Cleared(d, k) <= Filled(d, k) < Pow2(w)
  {
    hide Shl, Hi, Lo, Pow2, Max;
    CutBelow(a, d, w, k);
    FilledBound(d, w, k);
  }

  lemma EndAbove(a: nat, d: nat, w: nat, k: nat)
    requires d < Pow2(w)
    ensures Shl(Cleared(a, k), w) == Cleared(Shl(a, w) + d, k + w)
    ensures Shl(Filled(a, k), w) + Max(w) == Filled(Shl(a, w) + d, k + w)
  {
    hide Shl, Hi, Lo, Pow2, Max;
    LoSmall(a, k);
    CutAbove(a, d, w, k);
    ShlAdd(Cleared(a, k), Lo(a, k), w);
    ShlAdd(Cleared(a, k), Max(k), w);
    JoinOnes(k, w);
  }

  lemma FilledBound(d: nat, w: nat, k: nat)
    requires d < Pow2(w) && k <= w
    ensures Filled(d, k) < Pow2(w)
  {
    hide Shl, Hi, Lo, Pow2;
    Split(d, k);
    HiBound(d, w, k);
    MaxBelow(k);
    ShlBound(Hi(d, k), w - k, Max(k), k);
  }

  /** The ends that `ip/prefix` denotes form a block of the right size, and the addresses
      between them are exactly those that agree with `ip` above the low `k` bits. */
  lemma PrefixEnds(h: seq<nat>, w: nat, k: nat, x: nat)
    requires w > 0 && k <= Width(|h|, w) && IsWords(h, w)
    ensures IsBlock(Number(LowEnd(h, w, k), w), Number(HighEnd(h, w, k), w), k)
    ensures Number(LowEnd(h, w, k), w) <= x <= Number(HighEnd(h, w, k), w)
       <==> Hi(x, k) == Hi(Number(h, w), k)
  {
    hide Number, Shl, Hi, Lo, Pow2, Width, Max, IsWords;
    var n := Number(h, w);
    EndsAreNumbers(h, w, k);
    Split(n, k);
    Split(x, k);
    LoSmall(n, k);
    MaxBelow(k);
    var q, z := Hi(n, k), Hi(x, k);
    SplitUnique(q, 0, k);
    SplitUnique(q, Max(k), k);
    if z < q {
      ShlMono(z + 1, q, k);
      ShlAdd(z, 1, k);
    } else if q < z {
      ShlMono(q + 1, z, k);
      ShlAdd(q, 1, k);
    }
  }

  /** Conversely a block is what its first address and its prefix length denote. */
  lemma BlockIsItsEnds(from: seq<nat>, to: seq<nat>, w: nat, k: nat)
    requires w > 0 && |from| == |to| && k <= Width(|from|, w) && IsWords(from, w) && IsWords(to, w)
    requires IsBlock(Number(from, w), Number(to, w), k)
    ensures LowEnd(from, w, k) == from && HighEnd(from, w, k) == to
  {
    hide Number, Shl, Hi, Lo, Pow2, Width, Max, IsWords;
    EndsAreNumbers(from, w, k);
    Split(Number(from, w), k);
    Split(Number(to, w), k);
    NumberInjective(LowEnd(from, w, k), from, w);
    NumberInjective(HighEnd(from, w, k), to, w);
  }

  lemma LowEndOfNothing(h: seq<nat>, w: nat)
    requires w > 0
    ensures LowEnd(h, w, 0) == h && HighEnd(h, w, 0) == h
  {
    if h != [] {
      HiZero(h[|h| - 1]);
    }
  }

  lemma WordsSplit(k: nat, w: nat)
    requires w > 0
    ensures k == Width(k / w, w) + k % w
  {
  }

  lemma WordsToFill(n: nat, w: nat, k: nat)
    requires w > 0 && k <= Width(n, w)
    ensures k / w <= n && k == Width(k / w, w) + k % w
    ensures k / w == n ==> k % w == 0
  {
    WordsSplit(k, w);
    if k / w > n {
      MulMono(n + 1, k / w, w);
    }
  }

  /** The CIDR branch of `parse_ip_range`: both arrays hold the address, and get their low
      words and bits overwritten from the back. */
  method FillSubnet(from: array<nat>, to: array<nat>, w: nat, prefix: nat)
    requires w > 0 && from != to && from[..] == to[..] && IsWords(from[..], w)
    requires prefix <= Width(from.Length, w)
    modifies from, to
    ensures from[..] == LowEnd(old(from[..]), w, Width(from.Length, w) - prefix)
    ensures to[..] == HighEnd(old(from[..]), w, Width(from.Length, w) - prefix)
  {
    hide Max, Width, And, Or, Pow2, Lo, LowEnd, HighEnd;
    var subnetWidth: nat := Width(from.Length, w) - prefix;
    WordsToFill(from.Length, w, subnetWidth);
    var cur := FillWords(from, to, w, subnetWidth / w, subnetWidth % w);
    if subnetWidth % w != 0 {
      FillResidual(from, to, w, cur, subnetWidth % w);
    } else {
      LowEndOfNothing(from[..cur], w);
      assert from[..] == from[..cur] + from[cur..] && to[..] == from[..cur] + to[cur..];
    }
  }

  /** Whole words; `cur` is where the untouched words end. */
  method FillWords(from: array<nat>, to: array<nat>, w: nat, count: nat, residual: nat) returns (cur: nat)
    requires w > 0 && from != to && from[..] == to[..] && count <= from.Length
    modifies from, to
    ensures cur == from.Length - count
    ensures from[..cur] == old(from[..])[..cur] == to[..cur]
    ensures LowEnd(old(from[..]), w, Width(count, w) + residual)
         == LowEnd(from[..cur], w, residual) + from[cur..]
    ensures HighEnd(old(from[..]), w, Width(count, w) + residual)
         == HighEnd(from[..cur], w, residual) + to[cur..]
  {
    hide Max, Width, LowEnd, HighEnd;
    ghost var was := from[..];
    ghost var k := Width(count, w) + residual;
    var toFill: nat := count;
    cur := from.Length;
    WidthStep(0, w);
    assert was[..cur] == was;
    assert LowEnd(was, w, k) == LowEnd(was[..cur], w, k) + from[cur..];
    assert HighEnd(was, w, k) == HighEnd(was[..cur], w, k) + to[cur..];
    while toFill > 0
      invariant from.Length - cur + toFill == count
      invariant from[..cur] == was[..cur] == to[..cur]
      invariant LowEnd(was, w, k) == LowEnd(was[..cur], w, Width(toFill, w) + residual) + from[cur..]
      invariant HighEnd(was, w, k) == HighEnd(was[..cur], w, Width(toFill, w) + residual) + to[cur..]
    {
      EndStep(was[..cur], w, toFill, residual);
      ghost var low, high := from[cur..], to[cur..];
      cur := cur - 1;
      toFill := toFill - 1;
      to[cur] := Max(w);
      from[cur] := 0;
      assert was[..cur + 1][..cur] == was[..cur];
      assert from[cur..] == [0] + low;
      assert to[cur..] == [Max(w)] + high;
    }
  }

  /** The bits of the word in front of the filled ones. */
  method FillResidual(from: array<nat>, to: array<nat>, w: nat, cur: nat, residual: nat)
    requires 0 < residual < w && from != to && from.Length == to.Length && 0 < cur <= from.Length
    requires from[..cur] == to[..cur] && IsWords(from[..cur], w)
    modifies from, to
    ensures from[..] == LowEnd(old(from[..cur]), w, residual) + old(from[cur..])
    ensures to[..] == HighEnd(old(from[..cur]), w, residual) + old(to[cur..])
  {
    hide Max, And, Or, Pow2, LowEnd, HighEnd, IsWords;
    ghost var was := from[..cur];
    EndResidual(was, w, residual);
    assert was[cur - 1] == from[cur - 1] && to[..cur][cur - 1] == to[cur - 1];
    var mask := Max(residual);
    to[cur - 1] := Or(to[cur - 1], mask);
    from[cur - 1] := And(from[cur - 1], Not(mask, w));
    assert from[..] == was[..cur - 1] + [from[cur - 1]] + old(from[cur..]);
    assert to[..] == was[..cur - 1] + [to[cur - 1]] + old(to[cur..]);
  }

  lemma EndStep(h: seq<nat>, w: nat, n: nat, residual: nat)
    requires w > 0 && n > 0 && h != []
    ensures LowEnd(h, w, Width(n, w) + residual)
         == LowEnd(h[..|h| - 1], w, Width(n - 1, w) + residual) + [0]
    ensures HighEnd(h, w, Width(n, w) + residual)
         == HighEnd(h[..|h| - 1], w, Width(n - 1, w) + residual) + [Max(w)]
  {
    hide Width, Max;
    WidthStep(n - 1, w);
  }

  lemma EndResidual(h: seq<nat>, w: nat, residual: nat)
    requires 0 < residual < w && h != [] && IsWords(h, w)
    ensures Max(residual) < Pow2(w)
    ensures LowEnd(h, w, residual) == h[..|h| - 1] + [And(h[|h| - 1], Not(Max(residual), w))]
    ensures HighEnd(h, w, residual) == h[..|h| - 1] + [Or(h[|h| - 1], Max(residual))]
  {
    hide And, Or, Pow2, Lo;
    AndMask(h[|h| - 1], residual, w);
    OrMask(h[|h| - 1], residual);
  }
}
