/** Distributing width over weighted columns (`DistributeWidth` of fluidcolumnlayoutmanager.cpp). */
module ColumnLayout {

  // ---------------------------------------------------------------- the order of the columns

  /** The `i`-th column behind `start`, cyclically; -1 is in front of the first one. */
  function ColAt(start: int, i: nat, n: nat): (c: nat)
    requires -1 <= start < n && 1 <= i <= n
    ensures c < n
  {
    if start + i < n then start + i else start + i - n
  }

  /** The column behind `c`; the first one follows the last. */
  function Following(c: int, n: nat): (r: nat)
    requires -1 <= c < n && n > 0
    ensures r == if c + 1 < n then c + 1 else 0
  {
    (c + 1) % n
  }

  /** The columns with a weight, in the order in which they are visited from step `i` on. */
  function Order(weights: seq<nat>, start: int, i: nat): (r: seq<nat>)
    requires -1 <= start < |weights| && 1 <= i <= |weights| + 1
    decreases |weights| + 1 - i
  {
    if i > |weights| then []
    else
      var c := ColAt(start, i, |weights|);
      (if weights[c] > 0 then [c] else []) + Order(weights, start, i + 1)
  }

  /** The visit comes by column `c` at step `i` or later. */
  predicate ComesBy(start: int, i: nat, c: nat, n: nat)
    requires -1 <= start < n && 1 <= i <= n + 1
  {
    exists k :: i <= k <= n && ColAt(start, k, n) == c
  }

  lemma ComesByStep(start: int, i: nat, c: nat, n: nat)
    requires -1 <= start < n && 1 <= i <= n
    ensures ComesBy(start, i, c, n) <==> ColAt(start, i, n) == c || ComesBy(start, i + 1, c, n)
  {
    hide ColAt;
  }

  /** Which columns a visit from step `i` on takes. */
  lemma {:induction false} OrderMembers(weights: seq<nat>, start: int, i: nat, c: nat)
    requires -1 <= start < |weights| && 1 <= i <= |weights| + 1 && c < |weights|
    ensures c in Order(weights, start, i) <==> weights[c] > 0 && ComesBy(start, i, c, |weights|)
    ensures forall x :: x in Order(weights, start, i) ==> x < |weights|
    decreases |weights| + 1 - i
  {
    hide ColAt;
    if i <= |weights| {
      hide ComesBy;
      OrderMembers(weights, start, i + 1, c);
      ComesByStep(start, i, c, |weights|);
    }
  }

  predicate Distinct(s: seq<nat>) {
    forall i, j :: 0 <= i < j < |s| ==> s[i] != s[j]
  }

  lemma {:induction false} OrderDistinct(weights: seq<nat>, start: int, i: nat)
    requires -1 <= start < |weights| && 1 <= i <= |weights| + 1
    ensures Distinct(Order(weights, start, i))
    decreases |weights| + 1 - i
  {
    if i <= |weights| {
      var c := ColAt(start, i, |weights|);
      OrderDistinct(weights, start, i + 1);
      OrderMembers(weights, start, i + 1, c);
      var rest := Order(weights, start, i + 1);
      assert c !in rest;
    }
  }

  /** From whatever column the last call started, every column with a weight is visited, and
      none of them twice. */
  lemma VisitsEachOnce(weights: seq<nat>, start: int)
    requires weights != [] && -1 <= start < |weights|
    ensures var order := Order(weights, start, 1);
            && Distinct(order)
            && forall c: nat :: c in order <==> c < |weights| && weights[c] > 0
  {
    OrderDistinct(weights, start, 1);
    forall c: nat
      ensures c in Order(weights, start, 1) <==> c < |weights| && weights[c] > 0
    {
      if c < |weights| {
        OrderMembers(weights, start, 1, c);
        var k := if c > start then c - start else c - start + |weights|;
        assert ColAt(start, k, |weights|) == c;
      } else {
        OrderMembers(weights, start, 1, 0);
      }
    }
  }

  /** How many columns to the right of the start a column is, going round at the last one. */
  function Steps(start: int, c: nat, n: nat): int {
    if c > start then c - start else c - start + n
  }

  /** A visit goes to the right. */
  lemma {:induction false} GoesRight(weights: seq<nat>, start: int, i: nat)
    requires -1 <= start < |weights| && 1 <= i <= |weights| + 1
    ensures var order := Order(weights, start, i);
            && (forall x :: x in order ==> Steps(start, x, |weights|) >= i)
            && forall j, k :: 0 <= j < k < |order| ==> Steps(start, order[j], |weights|) < Steps(start, order[k], |weights|)
    decreases |weights| + 1 - i
  {
    if i <= |weights| {
      GoesRight(weights, start, i + 1);
      var rest := Order(weights, start, i + 1);
      assert forall k :: 0 <= k < |rest| ==> rest[k] in rest;
      assert Steps(start, ColAt(start, i, |weights|), |weights|) == i;
    }
  }

  /** Steps that come by no weighted column do not show in the order. */
  lemma {:induction false} SkipsUnweighted(weights: seq<nat>, start: int, i: nat, k: nat)
    requires -1 <= start < |weights| && 1 <= i <= k <= |weights| + 1
    requires forall j :: i <= j < k ==> weights[ColAt(start, j, |weights|)] == 0
    ensures Order(weights, start, i) == Order(weights, start, k)
    decreases k - i
  {
    if i < k {
      SkipsUnweighted(weights, start, i + 1, k);
      assert weights[ColAt(start, i, |weights|)] == 0;
    }
  }

  /** The step at which the next weighted column comes, if there is one. */
  lemma {:induction false} FirstStep(weights: seq<nat>, start: int, i: nat) returns (k: nat)
    requires -1 <= start < |weights| && 1 <= i <= |weights| + 1
    requires Order(weights, start, i) != []
    ensures i <= k <= |weights|
    ensures Order(weights, start, i)[0] == ColAt(start, k, |weights|) && weights[ColAt(start, k, |weights|)] > 0
    ensures forall j :: i <= j < k ==> weights[ColAt(start, j, |weights|)] == 0
    decreases |weights| + 1 - i
  {
    k := i;
    if weights[ColAt(start, i, |weights|)] == 0 {
      k := FirstStep(weights, start, i + 1);
    }
  }

  /** Counting the steps from the column of step `k`. */
  lemma StepsShift(start: int, k: nat, j: nat, n: nat)
    requires -1 <= start < n && 1 <= k <= n && 1 <= j <= n
    ensures ColAt(ColAt(start, k, n), j, n) == ColAt(start, if k + j <= n then k + j else k + j - n, n)
  {
  }

  lemma {:induction false} OrderFromStep(weights: seq<nat>, start: int, k: nat, i: nat)
    requires -1 <= start < |weights| && 1 <= k < i <= |weights| + 1
    requires weights[ColAt(start, k, |weights|)] > 0
    requires forall j :: 1 <= j < k ==> weights[ColAt(start, j, |weights|)] == 0
    ensures Order(weights, ColAt(start, k, |weights|), i - k)
         == Order(weights, start, i) + [ColAt(start, k, |weights|)]
    decreases |weights| + 1 - i
  {
    hide ColAt, Order;
    var n, c := |weights|, ColAt(start, k, |weights|);
    if i <= n {
      OrderFromStep(weights, start, k, i + 1);
      StepsShift(start, k, i - k, n);
      OrderUnfolds(weights, start, i);
      OrderUnfolds(weights, c, i - k);
      var d := ColAt(start, i, n);
      var head := if weights[d] > 0 then [d] else [];
      assert head + (Order(weights, start, i + 1) + [c]) == (head + Order(weights, start, i + 1)) + [c];
    } else {
      OrderFromEnd(weights, start, k);
    }
  }

  lemma OrderUnfolds(weights: seq<nat>, start: int, i: nat)
    requires -1 <= start < |weights| && 1 <= i <= |weights|
    ensures var c := ColAt(start, i, |weights|);
            Order(weights, start, i) == (if weights[c] > 0 then [c] else []) + Order(weights, start, i + 1)
  {
    hide ColAt;
  }

  lemma OrderFromEnd(weights: seq<nat>, start: int, k: nat)
    requires -1 <= start < |weights| && 1 <= k <= |weights|
    requires weights[ColAt(start, k, |weights|)] > 0
    requires forall j :: 1 <= j < k ==> weights[ColAt(start, j, |weights|)] == 0
    ensures Order(weights, ColAt(start, k, |weights|), |weights| + 1 - k)
         == Order(weights, start, |weights| + 1) + [ColAt(start, k, |weights|)]
  {
    hide ColAt, Order;
    var n, c := |weights|, ColAt(start, k, |weights|);
    forall j | n + 1 - k <= j < n
      ensures weights[ColAt(c, j, n)] == 0
    {
      StepsShift(start, k, j, n);
    }
    SkipsUnweighted(weights, c, n + 1 - k, n);
    StepsShift(start, k, n, n);
    OrderUnfolds(weights, c, n);
    OrderEnds(weights, c);
    OrderEnds(weights, start);
  }

  lemma OrderEnds(weights: seq<nat>, start: int)
    requires -1 <= start < |weights|
    ensures Order(weights, start, |weights| + 1) == []
  {
  }

  /** Starting at the first column of one visit, the next visit takes the columns in the same
      order turned by one: every weighted column gets to be the first and to be the last, where
      rounding leaves its remainder. */
  lemma OrderTurns(weights: seq<nat>, start: int)
    requires -1 <= start < |weights|
    requires Order(weights, start, 1) != []
    ensures var order := Order(weights, start, 1);
            && order[0] < |weights|
            && Order(weights, order[0], 1) == order[1..] + [order[0]]
  {
    var k := FirstStep(weights, start, 1);
    SkipsUnweighted(weights, start, 1, k);
    var c, rest := ColAt(start, k, |weights|), Order(weights, start, k + 1);
    assert Order(weights, start, k) == [c] + rest;
    assert ([c] + rest)[1..] == rest;
    OrderFromStep(weights, start, k, k + 1);
  }

  // ---------------------------------------------------------------- weights

  function Sum(s: seq<int>): int
    decreases |s|
  {
    if s == [] then 0 else s[0] + Sum(s[1..])
  }

  function SumWeights(weights: seq<nat>): nat {
    if weights == [] then 0 else SumWeights(weights[..|weights| - 1]) + weights[|weights| - 1]
  }

  function WeightOf(order: seq<nat>, weights: seq<nat>): nat
    requires forall c :: c in order ==> c < |weights|
  {
    if order == [] then 0
    else
      assert order[0] in order;
      assert forall c :: c in order[1..] ==> c in order;
      weights[order[0]] + WeightOf(order[1..], weights)
  }

  /** Total weight of the columns that steps `i` and later come by. */
  function WeightFrom(weights: seq<nat>, start: int, i: nat): nat
    requires -1 <= start < |weights| && 1 <= i <= |weights| + 1
    decreases |weights| + 1 - i
  {
    if i > |weights| then 0 else weights[ColAt(start, i, |weights|)] + WeightFrom(weights, start, i + 1)
  }

  lemma {:induction false} WeightOfOrder(weights: seq<nat>, start: int, i: nat)
    requires -1 <= start < |weights| && 1 <= i <= |weights| + 1
    requires forall c :: c in Order(weights, start, i) ==> c < |weights|
    ensures WeightOf(Order(weights, start, i), weights) == WeightFrom(weights, start, i)
    decreases |weights| + 1 - i
  {
    if i <= |weights| {
      OrderMembers(weights, start, i + 1, 0);
      WeightOfOrder(weights, start, i + 1);
      var c, rest := ColAt(start, i, |weights|), Order(weights, start, i + 1);
      if weights[c] > 0 {
        assert ([c] + rest)[1..] == rest;
      } else {
        assert [] + rest == rest;
      }
    }
  }

  /** First part of the cycle, up to the last column. */
  lemma {:induction false} WeightTail(weights: seq<nat>, start: int, i: nat)
    requires -1 <= start < |weights| && 1 <= i <= |weights| - start
    ensures WeightFrom(weights, start, i)
         == SumWeights(weights) - SumWeights(weights[..start + i]) + WeightFrom(weights, start, |weights| - start)
    decreases |weights| - start - i
  {
    var n := |weights|;
    if i == n - start {
      assert weights[..n] == weights;
    } else {
      WeightTail(weights, start, i + 1);
      var p := weights[..start + i + 1];
      assert p[..|p| - 1] == weights[..start + i];
    }
  }

  /** Second part, from the first column up to `start`. */
  lemma {:induction false} WeightHead(weights: seq<nat>, start: int, i: nat)
    requires -1 <= start < |weights| && |weights| - start <= i <= |weights| + 1 && 1 <= i
    ensures start + i - |weights| >= 0
    ensures WeightFrom(weights, start, i)
         == SumWeights(weights[..start + 1]) - SumWeights(weights[..start + i - |weights|])
    decreases |weights| + 1 - i
  {
    var n := |weights|;
    if i <= n {
      WeightHead(weights, start, i + 1);
      var p := weights[..start + i - n + 1];
      assert p[..|p| - 1] == weights[..start + i - n];
    }
  }

  /** The visited columns carry all the weight there is. */
  lemma OrderWeighs(weights: seq<nat>, start: int)
    requires weights != [] && -1 <= start < |weights|
    ensures forall c :: c in Order(weights, start, 1) ==> c < |weights|
    ensures WeightOf(Order(weights, start, 1), weights) == SumWeights(weights)
  {
    OrderMembers(weights, start, 1, 0);
    WeightOfOrder(weights, start, 1);
    WeightTail(weights, start, 1);
    WeightHead(weights, start, |weights| - start);
    assert weights[..0] == [];
  }

  // ---------------------------------------------------------------- shares

  /** `std::round` of a quotient: to the nearest integer, halves away from zero. */
  function RoundDiv(n: int, d: nat): int
    requires d > 0
  {
    if n >= 0 then (2 * n + d) / (2 * d) else -((2 * -n + d) / (2 * d))
  }

  /** The nearest integer; of two equally near ones the one farther from zero. */
  lemma RoundsToNearest(n: int, d: nat)
    requires d > 0
    ensures var rest := n - RoundDiv(n, d) * d;
            && 0 <= 2 * rest + d <= 2 * d
            && (2 * rest == d ==> n < 0) && (2 * rest + d == 0 ==> n > 0)
  {
    var m := if n >= 0 then n else -n;
    var q := (2 * m + d) / (2 * d);
    Quotient(2 * m + d, 2 * d);
    assert 2 * d * q == 2 * (q * d);
    assert RoundDiv(n, d) == if n >= 0 then q else 0 - q;
    assert (0 - q) * d == 0 - q * d;
  }

  lemma Quotient(x: nat, d: nat)
    requires d > 0
    ensures d * (x / d) <= x < d * (x / d) + d
  {
  }

  /** A share has the sign of the whole and is no larger; the last one is all of it. */
  lemma ShareBounds(width: int, weight: nat, total: nat)
    requires 0 < weight <= total
    ensures width >= 0 ==> 0 <= RoundDiv(width * weight, total) <= width
    ensures width <= 0 ==> width <= RoundDiv(width * weight, total) <= 0
    ensures weight == total ==> RoundDiv(width * weight, total) == width
  {
    if width >= 0 {
      NearestBounds(width, weight, total);
    } else {
      NearestBounds(-width, weight, total);
      assert -(width * weight) == (-width) * weight;
    }
  }

  lemma NearestBounds(width: nat, weight: nat, total: nat)
    requires 0 < weight <= total
    ensures 0 <= (2 * (width * weight) + total) / (2 * total) <= width
    ensures weight == total ==> (2 * (width * weight) + total) / (2 * total) == width
  {
    var p, d := width * weight, 2 * total;
    var q := (2 * p + total) / d;
    MulMono(weight, total, width);
    assert 2 * p + total <= width * d + total;
    QuotientAtMost(2 * p + total, d, width);
    if weight == total {
      QuotientAtLeast(2 * p + total, d, width);
    }
  }

  lemma MulMono(a: nat, b: nat, c: nat)
    requires a <= b
    ensures c * a <= c * b
  {
  }

  lemma QuotientAtMost(x: nat, d: nat, q: nat)
    requires d > 0 && x < q * d + d
    ensures x / d <= q
  {
    if x / d > q {
      MulMono(q + 1, x / d, d);
    }
  }

  lemma QuotientAtLeast(x: nat, d: nat, q: nat)
    requires d > 0 && q * d <= x
    ensures q <= x / d
  {
    if x / d < q {
      MulMono(x / d + 1, q, d);
    }
  }

  // ---------------------------------------------------------------- distribution

  /** What a distribution leads to: the new widths, by how much each visited column grew beside
      whether its minimum width stopped it, and the width that is counted as left over. */
  datatype Outcome = Outcome(widths: seq<int>, changes: seq<int>, clamped: seq<bool>, left: int)

  /** Width a column has before it gets its share: the one being dragged has a width of its own. */
  function OldWidth(widths: seq<int>, c: nat, resizing: int, resized: int): int
    requires c < |widths|
  {
    if c == resizing then resized else widths[c]
  }

  predicate Fits(order: seq<nat>, weights: seq<nat>, mins: seq<int>, widths: seq<int>) {
    && |weights| <= |mins| && |weights| <= |widths|
    && forall c :: c in order ==> c < |weights| && weights[c] > 0
  }

  /** What one column is given: its new width, whether its minimum stopped it, and the width
      that is counted as used up by it. */
  datatype Share = Share(now: int, clamped: bool, used: int)

  function ShareOf(was: int, least: int, width: int, weight: nat, total: nat): (r: Share)
    requires 0 < weight <= total
    ensures least <= r.now && (r.clamped ==> r.now == least)
    ensures r.used == if r.clamped then was - r.now else r.now - was
  {
    var share := RoundDiv(width * weight, total);
    if was + share < least then Share(least, true, was - least) else Share(was + share, false, share)
  }

  function Resize(widths: seq<int>, c: nat, was: int, now: int): (r: seq<int>)
    requires c < |widths|
    ensures |r| == |widths|
  {
    if now != was then widths[c := now] else widths
  }

  lemma FitsRest(order: seq<nat>, weights: seq<nat>, mins: seq<int>, widths: seq<int>)
    requires order != [] && Fits(order, weights, mins, widths)
    ensures order[0] < |weights| && 0 < weights[order[0]] <= WeightOf(order, weights)
    ensures Fits(order[1..], weights, mins, widths)
    ensures Distinct(order) ==> Distinct(order[1..]) && order[0] !in order[1..]
  {
    assert order[0] in order;
    assert forall x :: x in order[1..] ==> x in order;
    assert forall i :: 1 <= i < |order| ==> order[i] == order[1..][i - 1];
  }

  function Distribute(order: seq<nat>, weights: seq<nat>, mins: seq<int>, widths: seq<int>,
                      resizing: int, resized: int, width: int): (r: Outcome)
    requires Fits(order, weights, mins, widths)
    ensures |r.widths| == |widths| && |r.changes| == |r.clamped| == |order|
    decreases |order|
  {
    if order == [] then Outcome(widths, [], [], width)
    else
      FitsRest(order, weights, mins, widths);
      var c := order[0];
      var was := OldWidth(widths, c, resizing, resized);
      var share := ShareOf(was, mins[c], width, weights[c], WeightOf(order, weights));
      var rest := Distribute(order[1..], weights, mins, Resize(widths, c, was, share.now),
                             resizing, resized, width - share.used);
      Outcome(rest.widths, [share.now - was] + rest.changes, [share.clamped] + rest.clamped, rest.left)
  }

  lemma DistributeNone(weights: seq<nat>, mins: seq<int>, widths: seq<int>, resizing: int, resized: int, width: int)
    requires Fits([], weights, mins, widths)
    ensures Distribute([], weights, mins, widths, resizing, resized, width) == Outcome(widths, [], [], width)
  {
  }

  lemma DistributeStep(order: seq<nat>, weights: seq<nat>, mins: seq<int>, widths: seq<int>,
                       resizing: int, resized: int, width: int, was: int, share: Share)
    requires order != [] && Fits(order, weights, mins, widths)
    requires order[0] < |weights| && 0 < weights[order[0]] <= WeightOf(order, weights)
    requires was == OldWidth(widths, order[0], resizing, resized)
    requires share == ShareOf(was, mins[order[0]], width, weights[order[0]], WeightOf(order, weights))
    ensures Fits(order[1..], weights, mins, widths)
    ensures WeightOf(order, weights) == weights[order[0]] + WeightOf(order[1..], weights)
    ensures var r := Distribute(order, weights, mins, widths, resizing, resized, width);
            var rest := Distribute(order[1..], weights, mins, Resize(widths, order[0], was, share.now),
                                   resizing, resized, width - share.used);
            && r.widths == rest.widths
            && r.changes == [share.now - was] + rest.changes
            && r.clamped == [share.clamped] + rest.clamped
  {
    hide ShareOf, OldWidth, Resize;
    FitsRest(order, weights, mins, widths);
  }

  /** The columns that are not visited keep their width; each visited one changes by what is
      recorded for it, starting from the width it had, and gets its minimum at least. A column
      without a change is not touched, not even while it is being dragged. */
  lemma {:induction false} WidthsChange(order: seq<nat>, weights: seq<nat>, mins: seq<int>, widths: seq<int>,
                                        resizing: int, resized: int, width: int, c: nat)
    requires Fits(order, weights, mins, widths) && Distinct(order) && c < |widths|
    ensures var r := Distribute(order, weights, mins, widths, resizing, resized, width);
            && (c !in order ==> r.widths[c] == widths[c])
            && forall i :: 0 <= i < |order| && order[i] == c ==>
                 var goal := OldWidth(widths, c, resizing, resized) + r.changes[i];
                 && r.widths[c] == (if r.changes[i] == 0 then widths[c] else goal)
                 && (if r.clamped[i] then goal == mins[c] else goal >= mins[c])
    decreases |order|
  {
    hide ShareOf, RoundDiv, WeightOf, Distribute;
    if order == [] {
      DistributeNone(weights, mins, widths, resizing, resized, width);
    } else {
      FitsRest(order, weights, mins, widths);
      var d := order[0];
      var was := OldWidth(widths, d, resizing, resized);
      var share := ShareOf(was, mins[d], width, weights[d], WeightOf(order, weights));
      var widths' := Resize(widths, d, was, share.now);
      DistributeStep(order, weights, mins, widths, resizing, resized, width, was, share);
      WidthsChange(order[1..], weights, mins, widths', resizing, resized, width - share.used, c);
      forall i | 1 <= i < |order| && order[i] == c
        ensures c != d && order[1..][i - 1] == c
      {
        assert order[1..][i - 1] in order[1..];
      }
    }
  }

  /** What the clamped columns grew by. */
  function ClampedSum(changes: seq<int>, clamped: seq<bool>): int
    requires |changes| == |clamped|
    decreases |changes|
  {
    if changes == [] then 0
    else (if clamped[0] then changes[0] else 0) + ClampedSum(changes[1..], clamped[1..])
  }

  /** Where the width goes. The share of a clamped column is counted with the wrong sign, so that
      it is missing twice from the balance. */
  lemma {:induction false} Balance(order: seq<nat>, weights: seq<nat>, mins: seq<int>, widths: seq<int>,
                                   resizing: int, resized: int, width: int)
    requires Fits(order, weights, mins, widths)
    ensures var r := Distribute(order, weights, mins, widths, resizing, resized, width);
            Sum(r.changes) == width - r.left + 2 * ClampedSum(r.changes, r.clamped)
    decreases |order|
  {
    hide ShareOf, RoundDiv, WeightOf, Resize, OldWidth;
    if order != [] {
      FitsRest(order, weights, mins, widths);
      var d := order[0];
      var was := OldWidth(widths, d, resizing, resized);
      var share := ShareOf(was, mins[d], width, weights[d], WeightOf(order, weights));
      var widths' := Resize(widths, d, was, share.now);
      Balance(order[1..], weights, mins, widths', resizing, resized, width - share.used);
      var r := Distribute(order, weights, mins, widths, resizing, resized, width);
      var rest := Distribute(order[1..], weights, mins, widths', resizing, resized, width - share.used);
      assert r.changes[1..] == rest.changes && r.clamped[1..] == rest.clamped;
    }
  }

  predicate NoneClamped(clamped: seq<bool>) {
    forall i :: 0 <= i < |clamped| ==> !clamped[i]
  }

  /** The shares as they are without minimum widths. */
  function Shares(order: seq<nat>, weights: seq<nat>, width: int): (r: seq<int>)
    requires forall c :: c in order ==> c < |weights| && weights[c] > 0
    ensures |r| == |order|
    decreases |order|
  {
    if order == [] then []
    else
      FitsRest(order, weights, weights, weights);
      var share := RoundDiv(width * weights[order[0]], WeightOf(order, weights));
      [share] + Shares(order[1..], weights, width - share)
  }

  /** The shares have the sign of the whole, none exceeds it, and together they are exactly it. */
  lemma {:induction false} SharesAddUp(order: seq<nat>, weights: seq<nat>, width: int)
    requires order != [] && forall c :: c in order ==> c < |weights| && weights[c] > 0
    ensures var r := Shares(order, weights, width);
            && Sum(r) == width
            && (width >= 0 ==> forall i :: 0 <= i < |r| ==> 0 <= r[i] <= width)
            && (width <= 0 ==> forall i :: 0 <= i < |r| ==> width <= r[i] <= 0)
    decreases |order|
  {
    hide RoundDiv;
    FitsRest(order, weights, weights, weights);
    var total := WeightOf(order, weights);
    ShareBounds(width, weights[order[0]], total);
    var share := RoundDiv(width * weights[order[0]], total);
    var rest := Shares(order[1..], weights, width - share);
    assert Shares(order, weights, width)[1..] == rest;
    if order[1..] == [] {
      assert total == weights[order[0]];
    } else {
      SharesAddUp(order[1..], weights, width - share);
    }
  }

  /** Every visited column can take its share. */
  predicate SharesFit(order: seq<nat>, weights: seq<nat>, mins: seq<int>, widths: seq<int>,
                      resizing: int, resized: int, width: int)
    requires Fits(order, weights, mins, widths)
  {
    forall i :: 0 <= i < |order| ==>
      (assert order[i] in order; OldWidth(widths, order[i], resizing, resized))
      + Shares(order, weights, width)[i] >= mins[order[i]]
  }

  /** The minimum widths stay out of it exactly when every column can take its share; the columns
      then change by their shares. */
  lemma {:induction false} UnclampedExactly(order: seq<nat>, weights: seq<nat>, mins: seq<int>, widths: seq<int>,
                                            resizing: int, resized: int, width: int)
    requires Fits(order, weights, mins, widths) && Distinct(order)
    ensures var r := Distribute(order, weights, mins, widths, resizing, resized, width);
            && (NoneClamped(r.clamped) <==> SharesFit(order, weights, mins, widths, resizing, resized, width))
            && (NoneClamped(r.clamped) ==> r.changes == Shares(order, weights, width))
    decreases |order|
  {
    hide RoundDiv, WeightOf, Distinct, ShareOf, OldWidth, Resize, Distribute, NoneClamped, SharesFit;
    if order == [] {
      hide *;
      UnclampedNone(weights, mins, widths, resizing, resized, width);
    } else {
      FitsRest(order, weights, mins, widths);
      var d, total, rest := order[0], WeightOf(order, weights), order[1..];
      var was := OldWidth(widths, d, resizing, resized);
      var share := ShareOf(was, mins[d], width, weights[d], total);
      var widths' := Resize(widths, d, was, share.now);
      DistributeStep(order, weights, mins, widths, resizing, resized, width, was, share);
      ShareFits(was, mins[d], width, weights[d], total);
      if !share.clamped {
        UnclampedExactly(rest, weights, mins, widths', resizing, resized, width - share.used);
        var shares, shares' := Shares(order, weights, width), Shares(rest, weights, width - share.used);
        assert shares == [share.used] + shares';
        assert shares[1..] == shares';
        ResizeOther(order, weights, widths, was, share.now, resizing, resized);
        RestFits(order, weights, mins, widths, widths', resizing, resized, width, share.used);
        NoneClampedCons(Distribute(rest, weights, mins, widths', resizing, resized, width - share.used).clamped);
      } else {
        FirstMisfits(order, weights, mins, widths, resizing, resized, width);
        SomeClamped(Distribute(order, weights, mins, widths, resizing, resized, width).clamped);
      }
    }
  }

  lemma UnclampedNone(weights: seq<nat>, mins: seq<int>, widths: seq<int>, resizing: int, resized: int, width: int)
    requires Fits([], weights, mins, widths)
    ensures var r := Distribute([], weights, mins, widths, resizing, resized, width);
            NoneClamped(r.clamped) && SharesFit([], weights, mins, widths, resizing, resized, width)
            && r.changes == Shares([], weights, width)
  {
  }

  lemma ShareFits(was: int, least: int, width: int, weight: nat, total: nat)
    requires 0 < weight <= total
    ensures var share := ShareOf(was, least, width, weight, total);
            && (share.clamped <==> was + RoundDiv(width * weight, total) < least)
            && (!share.clamped ==> share.used == share.now - was == RoundDiv(width * weight, total))
  {
    hide RoundDiv;
  }

  lemma ResizeOther(order: seq<nat>, weights: seq<nat>, widths: seq<int>, was: int, now: int, resizing: int, resized: int)
    requires order != [] && Distinct(order) && forall c :: c in order ==> c < |widths|
    ensures order[0] in order && forall c :: c in order[1..] ==> c in order
    ensures forall c :: c in order[1..] ==>
              OldWidth(Resize(widths, order[0], was, now), c, resizing, resized) == OldWidth(widths, c, resizing, resized)
  {
    assert order[0] in order;
    assert forall c :: c in order[1..] ==> c in order;
    assert forall i :: 1 <= i < |order| ==> order[i] == order[1..][i - 1];
  }

  lemma FirstMisfits(order: seq<nat>, weights: seq<nat>, mins: seq<int>, widths: seq<int>,
                     resizing: int, resized: int, width: int)
    requires order != [] && Fits(order, weights, mins, widths)
    requires order[0] < |weights| && 0 < weights[order[0]] <= WeightOf(order, weights)
    requires OldWidth(widths, order[0], resizing, resized) + RoundDiv(width * weights[order[0]], WeightOf(order, weights))
           < mins[order[0]]
    ensures !SharesFit(order, weights, mins, widths, resizing, resized, width)
  {
    hide RoundDiv, OldWidth, WeightOf;
    assert Shares(order, weights, width)[0] == RoundDiv(width * weights[order[0]], WeightOf(order, weights));
  }

  lemma SomeClamped(clamped: seq<bool>)
    requires clamped != [] && clamped[0]
    ensures !NoneClamped(clamped)
  {
  }

  lemma NoneClampedCons(clamped: seq<bool>)
    ensures NoneClamped([false] + clamped) <==> NoneClamped(clamped)
  {
    var all := [false] + clamped;
    assert forall i :: 0 <= i < |clamped| ==> all[i + 1] == clamped[i];
  }

  lemma RestFits(order: seq<nat>, weights: seq<nat>, mins: seq<int>, widths: seq<int>, widths': seq<int>,
                 resizing: int, resized: int, width: int, share: int)
    requires order != [] && Fits(order, weights, mins, widths) && |widths'| == |widths|
    requires order[0] < |weights| && Fits(order[1..], weights, mins, widths)
    requires |Shares(order, weights, width)| == |order|
    requires share == Shares(order, weights, width)[0]
    requires Shares(order, weights, width)[1..] == Shares(order[1..], weights, width - share)
    requires forall c :: c in order[1..] ==>
               && c < |weights| && OldWidth(widths', c, resizing, resized) == OldWidth(widths, c, resizing, resized)
    ensures SharesFit(order, weights, mins, widths, resizing, resized, width)
       <==> OldWidth(widths, order[0], resizing, resized) + share >= mins[order[0]]
            && SharesFit(order[1..], weights, mins, widths', resizing, resized, width - share)
  {
    hide Shares, OldWidth;
    var all := Shares(order, weights, width);
    forall i | 0 <= i < |order| - 1
      ensures order[i + 1] == order[1..][i] && all[i + 1] == all[1..][i] && order[1..][i] in order[1..]
    {
    }
    if SharesFit(order[1..], weights, mins, widths', resizing, resized, width - share)
       && OldWidth(widths, order[0], resizing, resized) + share >= mins[order[0]] {
      forall i | 0 <= i < |order|
        ensures (assert order[i] in order; OldWidth(widths, order[i], resizing, resized)) + all[i] >= mins[order[i]]
      {
        if i > 0 {
          assert order[1..][i - 1] in order[1..];
        }
      }
    }
  }

  /** With no column stopped by its minimum, exactly the given width is handed out, and no column
      changes against it. */
  lemma DistributesAll(order: seq<nat>, weights: seq<nat>, mins: seq<int>, widths: seq<int>,
                       resizing: int, resized: int, width: int)
    requires Fits(order, weights, mins, widths) && Distinct(order) && order != []
    requires SharesFit(order, weights, mins, widths, resizing, resized, width)
    ensures var changes := Distribute(order, weights, mins, widths, resizing, resized, width).changes;
            && Sum(changes) == width
            && (width >= 0 ==> forall i :: 0 <= i < |changes| ==> 0 <= changes[i] <= width)
            && (width <= 0 ==> forall i :: 0 <= i < |changes| ==> width <= changes[i] <= 0)
  {
    UnclampedExactly(order, weights, mins, widths, resizing, resized, width);
    SharesAddUp(order, weights, width);
  }

  /** Handing out width never clamps a column that has its minimum. */
  lemma GrowingFits(order: seq<nat>, weights: seq<nat>, mins: seq<int>, widths: seq<int>,
                    resizing: int, resized: int, width: int)
    requires Fits(order, weights, mins, widths) && width >= 0
    requires forall c :: c in order ==> OldWidth(widths, c, resizing, resized) >= mins[c]
    ensures SharesFit(order, weights, mins, widths, resizing, resized, width)
  {
    if order != [] {
      SharesAddUp(order, weights, width);
    }
  }

  // ---------------------------------------------------------------- what clamping costs

  /** By how much each visited column is wider than its minimum. */
  function Slacks(order: seq<nat>, weights: seq<nat>, mins: seq<int>, widths: seq<int>,
                  resizing: int, resized: int): (r: seq<int>)
    requires Fits(order, weights, mins, widths)
    ensures |r| == |order|
    decreases |order|
  {
    if order == [] then []
    else
      FitsRest(order, weights, mins, widths);
      [OldWidth(widths, order[0], resizing, resized) - mins[order[0]]]
      + Slacks(order[1..], weights, mins, widths, resizing, resized)
  }

  predicate Weighted(order: seq<nat>, weights: seq<nat>, slacks: seq<int>) {
    |slacks| == |order| && forall c :: c in order ==> c < |weights| && weights[c] > 0
  }

  /** The first column's share, without regard to its minimum. */
  function FirstShare(order: seq<nat>, weights: seq<nat>, width: int): int
    requires order != [] && forall c :: c in order ==> c < |weights| && weights[c] > 0
  {
    FitsRest(order, weights, weights, weights);
    RoundDiv(width * weights[order[0]], WeightOf(order, weights))
  }

  /** What the columns in front of the last one give up to their minimums, and the share that is
      then asked of the last one. */
  datatype Tally = Tally(given: int, last: int)

  function TallyOf(order: seq<nat>, weights: seq<nat>, slacks: seq<int>, width: int): Tally
    requires order != [] && Weighted(order, weights, slacks)
    decreases |order|
  {
    FitsRest(order, weights, weights, weights);
    if |order| == 1 then Tally(0, width)
    else
      var share := FirstShare(order, weights, width);
      if slacks[0] + share < 0 then
        var rest := TallyOf(order[1..], weights, slacks[1..], width - slacks[0]);
        rest.(given := rest.given + slacks[0])
      else TallyOf(order[1..], weights, slacks[1..], width - share)
  }

  /** What the last column cannot give of its share. */
  function Shortage(slack: int, last: int): nat {
    if slack + last < 0 then -slack - last else 0
  }

  lemma {:induction false} SlacksOfRest(order: seq<nat>, weights: seq<nat>, mins: seq<int>, widths: seq<int>,
                                        resizing: int, resized: int, d: nat, was: int, now: int)
    requires Fits(order, weights, mins, widths) && d < |widths| && d !in order
    ensures Fits(order, weights, mins, Resize(widths, d, was, now))
    ensures Slacks(order, weights, mins, Resize(widths, d, was, now), resizing, resized)
         == Slacks(order, weights, mins, widths, resizing, resized)
    decreases |order|
  {
    if order != [] {
      FitsRest(order, weights, mins, widths);
      assert order[0] in order && forall x :: x in order[1..] ==> x in order;
      SlacksOfRest(order[1..], weights, mins, widths, resizing, resized, d, was, now);
    }
  }

  /** By how much the columns together miss the width: short by what the last column cannot give,
      and over by twice what the others gave up to their minimums. The sum is right exactly when
      the two are equal. */
  lemma {:induction false} ClampingMissesBy(order: seq<nat>, weights: seq<nat>, mins: seq<int>, widths: seq<int>,
                                            resizing: int, resized: int, width: int)
    requires Fits(order, weights, mins, widths) && Distinct(order) && order != []
    ensures var sum := Sum(Distribute(order, weights, mins, widths, resizing, resized, width).changes);
            var slacks := Slacks(order, weights, mins, widths, resizing, resized);
            var tally := TallyOf(order, weights, slacks, width);
            var short := Shortage(slacks[|order| - 1], tally.last);
            && sum == width + short - 2 * tally.given
            && (sum == width <==> short == 2 * tally.given)
    decreases |order|
  {
    hide RoundDiv, WeightOf, ShareOf, OldWidth, Resize, Distribute, Distinct, Sum, Shortage, Slacks, TallyOf;
    FitsRest(order, weights, mins, widths);
    var d, total, rest := order[0], WeightOf(order, weights), order[1..];
    var was := OldWidth(widths, d, resizing, resized);
    var share := ShareOf(was, mins[d], width, weights[d], total);
    var widths' := Resize(widths, d, was, share.now);
    DistributeStep(order, weights, mins, widths, resizing, resized, width, was, share);
    ShareFits(was, mins[d], width, weights[d], total);
    var changes' := Distribute(rest, weights, mins, widths', resizing, resized, width - share.used).changes;
    SumCons(share.now - was, changes');
    SlacksStep(order, weights, mins, widths, resizing, resized);
    if rest == [] {
      SingleShare(order, weights, width);
      assert Slacks(order, weights, mins, widths, resizing, resized) == [was - mins[d]];
      TallyOfOne(order, weights, was - mins[d], width);
      LastMisses(was - mins[d], width, share.now - was);
      assert changes' == [];
    } else {
      var slacks' := Slacks(rest, weights, mins, widths, resizing, resized);
      TallyStep(order, weights, was - mins[d], slacks', width);
      SlacksOfRest(rest, weights, mins, widths, resizing, resized, d, was, share.now);
      ClampingMissesBy(rest, weights, mins, widths', resizing, resized, width - share.used);
    }
  }

  lemma SlacksStep(order: seq<nat>, weights: seq<nat>, mins: seq<int>, widths: seq<int>, resizing: int, resized: int)
    requires order != [] && Fits(order, weights, mins, widths)
    ensures order[0] < |weights| && Fits(order[1..], weights, mins, widths)
    ensures Slacks(order, weights, mins, widths, resizing, resized)
         == [OldWidth(widths, order[0], resizing, resized) - mins[order[0]]]
            + Slacks(order[1..], weights, mins, widths, resizing, resized)
  {
    FitsRest(order, weights, mins, widths);
  }

  lemma TallyStep(order: seq<nat>, weights: seq<nat>, slack: int, slacks: seq<int>, width: int)
    requires |order| > 1 && Weighted(order, weights, [slack] + slacks)
    ensures Weighted(order[1..], weights, slacks) && order[0] in order && 0 < weights[order[0]] <= WeightOf(order, weights)
    ensures var share := RoundDiv(width * weights[order[0]], WeightOf(order, weights));
            var stops := slack + share < 0;
            var rest := TallyOf(order[1..], weights, slacks, width - if stops then slack else share);
            TallyOf(order, weights, [slack] + slacks, width) == rest.(given := rest.given + if stops then slack else 0)
  {
    hide RoundDiv, WeightOf;
    FitsRest(order, weights, weights, weights);
    assert ([slack] + slacks)[1..] == slacks;
  }

  lemma TallyOfOne(order: seq<nat>, weights: seq<nat>, slack: int, width: int)
    requires |order| == 1 && Weighted(order, weights, [slack])
    ensures TallyOf(order, weights, [slack], width) == Tally(0, width)
  {
  }

  lemma SumCons(x: int, s: seq<int>)
    ensures Sum([x] + s) == x + Sum(s) && Sum([]) == 0
  {
    assert ([x] + s)[1..] == s;
  }

  lemma LastMisses(slack: int, width: int, change: int)
    requires change == if slack + width < 0 then -slack else width
    ensures change == width + Shortage(slack, width)
  {
  }

  lemma SingleShare(order: seq<nat>, weights: seq<nat>, width: int)
    requires |order| == 1 && order[0] < |weights| && weights[order[0]] > 0
    ensures forall c :: c in order ==> c < |weights|
    ensures WeightOf(order, weights) == weights[order[0]]
    ensures RoundDiv(width * weights[order[0]], weights[order[0]]) == width
  {
    assert order == [order[0]];
    ShareBounds(width, weights[order[0]], weights[order[0]]);
  }

  /** Every column in front of the last one can take its share, when those that have no more than
      their minimum are left out of shrinking. */
  predicate EarlierFit(order: seq<nat>, weights: seq<nat>, slacks: seq<int>, width: int)
    requires Weighted(order, weights, slacks)
    decreases |order|
  {
    |order| <= 1 ||
      (FitsRest(order, weights, weights, weights);
       var share := if slacks[0] == 0 && FirstShare(order, weights, width) < 0 then 0
                    else FirstShare(order, weights, width);
       slacks[0] + share >= 0 && EarlierFit(order[1..], weights, slacks[1..], width - share))
  }

  /** Where the columns had their minimums, those in front of the last one give up nothing against
      the balance exactly if they fit. Never is more asked of the last one than the width and
      what they gave up. */
  lemma {:induction false} NothingGivenExactly(order: seq<nat>, weights: seq<nat>, slacks: seq<int>, width: int)
    requires order != [] && Weighted(order, weights, slacks)
    requires forall s :: s in slacks ==> s >= 0
    ensures var t := TallyOf(order, weights, slacks, width);
            && t.given >= 0 && (t.given == 0 <==> EarlierFit(order, weights, slacks, width))
            && (width <= 0 ==> width - t.given <= t.last)
    decreases |order|
  {
    hide RoundDiv, WeightOf;
    if |order| > 1 {
      FitsRest(order, weights, weights, weights);
      ShareBounds(width, weights[order[0]], WeightOf(order, weights));
      var share := FirstShare(order, weights, width);
      var used := if slacks[0] + share < 0 then slacks[0] else share;
      assert slacks[0] in slacks && forall s :: s in slacks[1..] ==> s in slacks;
      NothingGivenExactly(order[1..], weights, slacks[1..], width - used);
    }
  }

  /** When the columns had their minimums: as long as all but the last one fit, the sum is right
      exactly if the last one can give its share; if another one does not fit, and the last one can,
      the columns together change by more than was asked for. */
  lemma ClampingOvershoots(order: seq<nat>, weights: seq<nat>, mins: seq<int>, widths: seq<int>,
                           resizing: int, resized: int, width: int)
    requires Fits(order, weights, mins, widths) && Distinct(order) && order != []
    requires forall c :: c in order ==> OldWidth(widths, c, resizing, resized) >= mins[c]
    ensures var sum := Sum(Distribute(order, weights, mins, widths, resizing, resized, width).changes);
            var slacks := Slacks(order, weights, mins, widths, resizing, resized);
            var gives := slacks[|order| - 1] + TallyOf(order, weights, slacks, width).last >= 0;
            && (EarlierFit(order, weights, slacks, width) ==> sum >= width && (sum == width <==> gives))
            && (gives ==> sum <= width && (sum == width <==> EarlierFit(order, weights, slacks, width)))
  {
    hide TallyOf, EarlierFit, Slacks, Distribute, OldWidth;
    ClampingMissesBy(order, weights, mins, widths, resizing, resized, width);
    HasSlack(order, weights, mins, widths, resizing, resized);
    NothingGivenExactly(order, weights, Slacks(order, weights, mins, widths, resizing, resized), width);
  }

  lemma {:induction false} HasSlack(order: seq<nat>, weights: seq<nat>, mins: seq<int>, widths: seq<int>,
                                    resizing: int, resized: int)
    requires Fits(order, weights, mins, widths)
    requires forall c :: c in order ==> OldWidth(widths, c, resizing, resized) >= mins[c]
    ensures forall s :: s in Slacks(order, weights, mins, widths, resizing, resized) ==> s >= 0
    decreases |order|
  {
    hide OldWidth;
    if order != [] {
      FitsRest(order, weights, mins, widths);
      assert order[0] in order && forall x :: x in order[1..] ==> x in order;
      HasSlack(order[1..], weights, mins, widths, resizing, resized);
    }
  }

  /** Two equal columns are to give up 100 together. If the first has only 10 to give and the other
      as much as is asked for, they shrink by 120; if the other has 90, they shrink by 100, although
      both are stopped. A single column with 10 to give shrinks by 10. */
  lemma ClampedShareIsLost()
    ensures Sum(Distribute([0, 1], [1, 1], [90, 0], [100, 300], -1, 0, -100).changes) == -120
    ensures Sum(Distribute([0, 1], [1, 1], [90, 210], [100, 300], -1, 0, -100).changes) == -100
    ensures Sum(Distribute([0], [1], [90], [100], -1, 0, -100).changes) == -10
  {
    hide Distribute, Sum, TallyOf, Slacks;
    TwoColumns(0);
    ClampingMissesBy([0, 1], [1, 1], [90, 0], [100, 300], -1, 0, -100);
    TwoColumns(210);
    ClampingMissesBy([0, 1], [1, 1], [90, 210], [100, 300], -1, 0, -100);
    OneColumn();
    ClampingMissesBy([0], [1], [90], [100], -1, 0, -100);
  }

  lemma TwoColumns(least: int)
    ensures Slacks([0, 1], [1, 1], [90, least], [100, 300], -1, 0) == [10, 300 - least]
    ensures TallyOf([0, 1], [1, 1], [10, 300 - least], -100) == Tally(10, -110)
  {
    assert [0, 1][1..] == [1] && [1][1..] == [];
    assert WeightOf([1], [1, 1]) == 1 && WeightOf([0, 1], [1, 1]) == 2;
    assert Slacks([1], [1, 1], [90, least], [100, 300], -1, 0) == [300 - least];
    assert [10, 300 - least][1..] == [300 - least];
    assert FirstShare([0, 1], [1, 1], -100) == -50;
  }

  lemma OneColumn()
    ensures Slacks([0], [1], [90], [100], -1, 0) == [10]
    ensures TallyOf([0], [1], [10], -100) == Tally(0, -100)
  {
    assert [0][1..] == [];
  }

  // ---------------------------------------------------------------- the dragged column

  /** Where every visited column starts: the dragged one from the width it is dragged to, every other
      one from the width it has. A column whose share comes to nothing is left as it is. */
  lemma StartsFrom(order: seq<nat>, weights: seq<nat>, mins: seq<int>, widths: seq<int>,
                   resizing: int, resized: int, width: int, i: nat)
    requires Fits(order, weights, mins, widths) && Distinct(order) && i < |order|
    ensures order[i] < |weights|
    ensures var r := Distribute(order, weights, mins, widths, resizing, resized, width);
            var c := order[i];
            var was := if c == resizing then resized else widths[c];
            && r.widths[c] == (if r.changes[i] == 0 then widths[c] else was + r.changes[i])
            && was + r.changes[i] >= mins[c]
  {
    hide Distribute;
    assert order[i] in order;
    WidthsChange(order, weights, mins, widths, resizing, resized, width, order[i]);
  }

  /** The same outcome, but for the width of one column. */
  predicate SameElsewhere(r: Outcome, q: Outcome, c: nat) {
    && q.changes == r.changes && q.clamped == r.clamped && |q.widths| == |r.widths|
    && forall d :: 0 <= d < |r.widths| && d != c ==> q.widths[d] == r.widths[d]
  }

  /** The width that the dragged column has itself has no influence on any other column. */
  lemma {:induction false} DraggedWidthIsIgnored(order: seq<nat>, weights: seq<nat>, mins: seq<int>, widths: seq<int>,
                                                 resizing: nat, resized: int, width: int, other: int)
    requires Fits(order, weights, mins, widths) && Distinct(order) && resizing < |widths|
    ensures SameElsewhere(Distribute(order, weights, mins, widths, resizing, resized, width),
                          Distribute(order, weights, mins, widths[resizing := other], resizing, resized, width), resizing)
    decreases |order|
  {
    hide ShareOf, RoundDiv, WeightOf, Distribute;
    var widths2 := widths[resizing := other];
    if order == [] {
      DistributeNone(weights, mins, widths, resizing, resized, width);
      DistributeNone(weights, mins, widths2, resizing, resized, width);
    } else {
      hide SameElsewhere;
      FitsRest(order, weights, mins, widths);
      var d, rest := order[0], order[1..];
      var was := OldWidth(widths, d, resizing, resized);
      var share := ShareOf(was, mins[d], width, weights[d], WeightOf(order, weights));
      var w, v := Resize(widths, d, was, share.now), Resize(widths2, d, was, share.now);
      DistributeStep(order, weights, mins, widths, resizing, resized, width, was, share);
      DistributeStep(order, weights, mins, widths2, resizing, resized, width, was, share);
      var x := v[resizing];
      assert v == w[resizing := x];
      if d == resizing {
        VisitedIsIgnored(rest, weights, mins, w, resizing, resized, width - share.used, x);
      } else {
        DraggedWidthIsIgnored(rest, weights, mins, w, resizing, resized, width - share.used, x);
      }
      StepKeepsSame(Distribute(rest, weights, mins, w, resizing, resized, width - share.used),
                    Distribute(rest, weights, mins, v, resizing, resized, width - share.used),
                    Distribute(order, weights, mins, widths, resizing, resized, width),
                    Distribute(order, weights, mins, widths2, resizing, resized, width), resizing, share.now - was, share.clamped);
    }
  }

  lemma StepKeepsSame(r': Outcome, q': Outcome, r: Outcome, q: Outcome, c: nat, change: int, clamped: bool)
    requires SameElsewhere(r', q', c)
    requires r.widths == r'.widths && r.changes == [change] + r'.changes && r.clamped == [clamped] + r'.clamped
    requires q.widths == q'.widths && q.changes == [change] + q'.changes && q.clamped == [clamped] + q'.clamped
    ensures SameElsewhere(r, q, c)
  {
  }

  /** Nor has the width of a column that is not visited any more. */
  lemma {:induction false} VisitedIsIgnored(order: seq<nat>, weights: seq<nat>, mins: seq<int>, widths: seq<int>,
                                            resizing: nat, resized: int, width: int, other: int)
    requires Fits(order, weights, mins, widths) && Distinct(order) && resizing < |widths| && resizing !in order
    ensures SameElsewhere(Distribute(order, weights, mins, widths, resizing, resized, width),
                          Distribute(order, weights, mins, widths[resizing := other], resizing, resized, width), resizing)
    decreases |order|
  {
    hide ShareOf, RoundDiv, WeightOf, Distribute;
    var widths2 := widths[resizing := other];
    if order == [] {
      DistributeNone(weights, mins, widths, resizing, resized, width);
      DistributeNone(weights, mins, widths2, resizing, resized, width);
    } else {
      hide SameElsewhere;
      FitsRest(order, weights, mins, widths);
      assert order[0] in order && forall c :: c in order[1..] ==> c in order;
      var d, rest := order[0], order[1..];
      var was := OldWidth(widths, d, resizing, resized);
      var share := ShareOf(was, mins[d], width, weights[d], WeightOf(order, weights));
      var w := Resize(widths, d, was, share.now);
      DistributeStep(order, weights, mins, widths, resizing, resized, width, was, share);
      DistributeStep(order, weights, mins, widths2, resizing, resized, width, was, share);
      assert Resize(widths2, d, was, share.now) == w[resizing := other];
      VisitedIsIgnored(rest, weights, mins, w, resizing, resized, width - share.used, other);
      StepKeepsSame(Distribute(rest, weights, mins, w, resizing, resized, width - share.used),
                    Distribute(rest, weights, mins, w[resizing := other], resizing, resized, width - share.used),
                    Distribute(order, weights, mins, widths, resizing, resized, width),
                    Distribute(order, weights, mins, widths2, resizing, resized, width), resizing, share.now - was, share.clamped);
    }
  }

  /** Two columns of 100, the first dragged to 140, which is its minimum, in a window of 200: the other
      gives up the 40, and the dragged one is not touched. */
  lemma DraggedCase()
    ensures Distribute([0, 1], [1, 1], [140, 50], [100, 100], 0, 140, -40).widths == [100, 60]
  {
    assert [0, 1][1..] == [1] && [1][1..] == [];
    assert WeightOf([1], [1, 1]) == 1 && WeightOf([0, 1], [1, 1]) == 2;
    assert ShareOf(140, 140, -40, 1, 2) == Share(140, true, 0);
    assert Resize([100, 100], 0, 140, 140) == [100, 100];
    DraggedRest();
  }

  lemma DraggedRest()
    ensures Fits([1], [1, 1], [140, 50], [100, 100])
    ensures Distribute([1], [1, 1], [140, 50], [100, 100], 0, 140, -40).widths == [100, 60]
  {
    assert [1][1..] == [] && WeightOf([1], [1, 1]) == 1;
    assert ShareOf(100, 50, -40, 1, 1) == Share(60, false, -40);
    assert Resize([100, 100], 1, 100, 60) == [100, 60];
  }

  // ---------------------------------------------------------------- the layout manager

  lemma OneStep(weights: seq<nat>, start: int, k: nat, col: int)
    requires -1 <= start < |weights| && k < |weights|
    requires col == if k == 0 then start else ColAt(start, k, |weights|)
    ensures -1 <= col < |weights| && Following(col, |weights|) == ColAt(start, k + 1, |weights|)
    ensures var c := ColAt(start, k + 1, |weights|);
            Order(weights, start, k + 1) == (if weights[c] > 0 then [c] else []) + Order(weights, start, k + 2)
  {
  }

  class Layout {
    var weights: seq<nat>
    var mins: seq<int>
    var widths: seq<int>
    /** Where the last distribution started; -1 before the first one. */
    var startCol: int

    ghost predicate Valid()
      reads this
    {
      -1 <= startCol < |weights| <= |mins| && |weights| <= |widths|
    }

    constructor (mins: seq<int>, widths: seq<int>)
      ensures Valid() && weights == [] && this.mins == mins && this.widths == widths && startCol == -1
    {
      weights, this.mins, this.widths, startCol := [], mins, widths, -1;
    }

    /** The next weighted column behind `col`. `count` steps are behind, counted over all the
        calls of one visit; when they are used up the count is taken back. */
    method FindNextWeighted(ghost start: int, col: int, count: nat) returns (next: int, steps: nat)
      requires Valid() && weights != [] && -1 <= start < |weights| && count <= |weights|
      requires col == if count == 0 then start else ColAt(start, count, |weights|)
      ensures next == -1 ==> steps == 0 && Order(weights, start, count + 1) == []
      ensures next != -1 ==>
                && count < steps <= |weights| && next == ColAt(start, steps, |weights|)
                && Order(weights, start, count + 1) == [next] + Order(weights, start, steps + 1)
                && weights[next] > 0
    {
      hide Order, ColAt;
      next, steps := col, count;
      while steps < |weights|
        invariant count <= steps <= |weights|
        invariant next == if steps == 0 then start else ColAt(start, steps, |weights|)
        invariant Order(weights, start, count + 1) == Order(weights, start, steps + 1)
      {
        OneStep(weights, start, steps, next);
        steps := steps + 1;
        next := Following(next, |weights|);
        if weights[next] > 0 {
          return;
        }
      }
      OrderEnds(weights, start);
      next, steps := -1, 0;
    }

    /** Shares `width` out among the weighted columns, by weight and in order. */
    method DistributeWidth(width: int, resizing: int, resized: int)
      requires Valid() && weights != []
      modifies this`widths, this`startCol
      ensures Valid()
      ensures var order := Order(old(weights), old(startCol), 1);
              && startCol == (if order == [] then -1 else order[0])
              && Fits(order, weights, mins, old(widths))
              && widths == Distribute(order, weights, mins, old(widths), resizing, resized, width).widths
    {
      hide Order, Distribute, WeightOf, RoundDiv, ColAt, SumWeights, Distinct;
      ghost var start, order := startCol, Order(weights, startCol, 1);
      OrderWeighs(weights, start);
      VisitsEachOnce(weights, start);
      ghost var goal := Distribute(order, weights, mins, widths, resizing, resized, width).widths;
      var left := width;
      var total := Total();
      var col, count := FindNextWeighted(start, startCol, 0);
      startCol := col;
      ghost var rest := order;
      while col != -1
        invariant Valid() && startCol == if order == [] then -1 else order[0]
        invariant col == -1 ==> rest == []
        invariant col != -1 ==>
                    && 1 <= count <= |weights| && col == ColAt(start, count, |weights|)
                    && rest == [col] + Order(weights, start, count + 1)
        invariant Fits(rest, weights, mins, widths) && |widths| == |old(widths)|
        invariant total == WeightOf(rest, weights)
        invariant Distribute(rest, weights, mins, widths, resizing, resized, left).widths == goal
        decreases if col == -1 then 0 else |weights| + 1 - count
      {
        FitsRest(rest, weights, mins, widths);
        ghost var share := ShareOf(OldWidth(widths, col, resizing, resized), mins[col], left, weights[col], total);
        DistributeStep(rest, weights, mins, widths, resizing, resized, left,
                       OldWidth(widths, col, resizing, resized), share);
        var was := if resizing == col then resized else widths[col];
        var used := RoundDiv(left * weights[col], total);
        var now := was + used;
        if now < mins[col] {
          now := mins[col];
          used := was - now;
        }
        assert now == share.now && used == share.used;
        if now != was {
          widths := widths[col := now];
          left := left - used;
        }
        total := total - weights[col];
        assert rest[1..] == Order(weights, start, count + 1);
        rest := rest[1..];
        col, count := FindNextWeighted(start, col, count);
      }
      DistributeNone(weights, mins, widths, resizing, resized, left);
    }

    method Total() returns (total: nat)
      ensures total == SumWeights(weights)
    {
      total := 0;
      for i := 0 to |weights|
        invariant total == SumWeights(weights[..i])
      {
        assert weights[..i + 1][..i] == weights[..i];
        total := total + weights[i];
      }
      assert weights[..|weights|] == weights;
    }
  }
}
