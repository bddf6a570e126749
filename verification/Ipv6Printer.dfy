/** `ip<6>::to_string` and its inverse: which addresses survive being printed and parsed. */
module Ipv6Printer {
  import opened Parser
  import opened HostAddress

  /** Number of consecutive zero hextets from index `i` on. */
  function ZeroRun(h: seq<nat>, i: nat): (n: nat)
    requires i <= |h|
    ensures i + n <= |h|
    ensures forall k :: i <= k < i + n ==> h[k] == 0
    ensures i + n < |h| ==> h[i + n] != 0
    decreases |h| - i
  {
    if i == |h| || h[i] != 0 then 0 else 1 + ZeroRun(h, i + 1)
  }

  /** The stretch of zeros that is abbreviated; `start` is the size of the address when there
      is no zero. */
  datatype Gap = Gap(start: nat, len: nat)

  /** The longest run of zeros, and the first one among those (section 4.2 of RFC 5952). */
  ghost predicate IsLongestGap(h: seq<nat>, g: Gap) {
    && (g.len == 0 ==> g.start == |h|)
    && (g.len > 0 ==> g.start < |h| && ZeroRun(h, g.start) == g.len)
    && forall j :: 0 <= j < |h| ==>
         ZeroRun(h, j) <= g.len && (0 < ZeroRun(h, j) == g.len ==> g.start <= j)
  }

  /** The best gap among those that start at `i` or later. */
  function LongestGap(h: seq<nat>, i: nat): (g: Gap)
    requires i <= |h|
    ensures g.start <= |h|
    ensures g.len == 0 ==> g.start == |h|
    ensures g.len > 0 ==> i <= g.start < |h| && ZeroRun(h, g.start) == g.len
    ensures forall j :: i <= j < |h| ==>
              ZeroRun(h, j) <= g.len && (0 < ZeroRun(h, j) == g.len ==> g.start <= j)
    decreases |h| - i
  {
    if i == |h| then Gap(|h|, 0)
    else
      var g := LongestGap(h, i + 1);
      var n := ZeroRun(h, i);
      if n > 0 && n >= g.len then Gap(i, n) else g
  }

  lemma LongestGapIsUnique(h: seq<nat>, g: Gap)
    requires IsLongestGap(h, g)
    ensures g == LongestGap(h, 0)
  {
    var b := LongestGap(h, 0);
    if g.len > 0 {
      assert ZeroRun(h, g.start) <= b.len;
    }
    if b.len > 0 {
      assert ZeroRun(h, b.start) <= g.len;
    }
  }

  /** What is printed for hextet `i`. */
  function Piece(h: seq<nat>, g: Gap, i: nat): string
    requires i < |h|
  {
    if i < g.start || g.start + g.len <= i then
      Print(h[i], 16) + (if i != |h| - 1 then ":" else "")
    else if i == 0 || i == g.start + g.len - 1 then ":"
    else ""
  }

  lemma PieceIs(h: seq<nat>, g: Gap, i: nat)
    requires i < |h|
    ensures
      if i < g.start || g.start + g.len <= i then
        Piece(h, g, i) == if i != |h| - 1 then Print(h[i], 16) + ":" else Print(h[i], 16)
      else
        Piece(h, g, i) == if i == 0 || i == g.start + g.len - 1 then ":" else ""
  {
  }

  /** The printed form of the hextets from `i` on. */
  function TextFrom(h: seq<nat>, g: Gap, i: nat): string
    requires i <= |h|
    decreases |h| - i
  {
    if i == |h| then "" else Piece(h, g, i) + TextFrom(h, g, i + 1)
  }

  function Ipv6Text(h: seq<nat>): string {
    TextFrom(h, LongestGap(h, 0), 0)
  }

  /** First half of `to_string`: scan for runs of zeros and keep the longest. */
  method FindGap(h: seq<nat>) returns (g: Gap)
    ensures g == LongestGap(h, 0)
  {
    g := Gap(|h|, 0);
    var zero := NextZero(h, 0);
    while zero < |h|
      invariant zero <= |h| && (zero < |h| ==> h[zero] == 0)
      invariant g.len == 0 ==> g.start == |h|
      invariant g.len > 0 ==> g.start < zero && ZeroRun(h, g.start) == g.len
      invariant forall j :: 0 <= j < zero ==>
                  ZeroRun(h, j) <= g.len && (0 < ZeroRun(h, j) == g.len ==> g.start <= j)
      decreases |h| - zero
    {
      var nonZero := NextNonZero(h, zero);
      if nonZero - zero > g.len {
        g := Gap(zero, nonZero - zero);
      }
      zero := NextZero(h, nonZero);
    }
    LongestGapIsUnique(h, g);
  }

  /** `find_if` for a zero. */
  method NextZero(h: seq<nat>, i: nat) returns (j: nat)
    requires i <= |h|
    ensures i <= j <= |h| && (j < |h| ==> h[j] == 0)
    ensures forall k :: i <= k < j ==> ZeroRun(h, k) == 0
  {
    j := i;
    while j < |h| && h[j] != 0
      invariant i <= j <= |h|
      invariant forall k :: i <= k < j ==> h[k] != 0
    {
      j := j + 1;
    }
  }

  /** `find_if_not`, starting behind a zero. */
  method NextNonZero(h: seq<nat>, i: nat) returns (j: nat)
    requires i < |h| && h[i] == 0
    ensures i < j <= |h| && (j < |h| ==> h[j] != 0)
    ensures forall k :: i <= k < j ==> h[k] == 0 && ZeroRun(h, k) == j - k
  {
    j := i + 1;
    while j < |h| && h[j] == 0
      invariant i < j <= |h|
      invariant forall k :: i <= k < j ==> h[k] == 0
    {
      j := j + 1;
    }
    forall k | i <= k < j
      ensures ZeroRun(h, k) == j - k
    {
      var n := ZeroRun(h, k);
    }
  }

  /** `to_string`: find the gap, then append piece after piece. */
  method ToString(h: seq<nat>) returns (s: string)
    ensures s == Ipv6Text(h)
  {
    hide Print, LongestGap, Piece;
    var g := FindGap(h);
    s := "";
    var it := 0;
    while it < |h|
      invariant 0 <= it <= |h|
      invariant s + TextFrom(h, g, it) == Ipv6Text(h)
    {
      ghost var before := s;
      ghost var piece := Piece(h, g, it);
      PieceIs(h, g, it);
      if it < g.start || g.start + g.len <= it {
        s := s + Print(h[it], 16);
        if it != |h| - 1 {
          s := s + ":";
        }
      } else if it == 0 || it == g.start + g.len - 1 {
        s := s + ":";
      }
      assert s == before + piece;
      assert (before + piece) + TextFrom(h, g, it + 1) == before + (piece + TextFrom(h, g, it + 1));
      it := it + 1;
    }
  }

  // ---------------------------------------------------------------- reading it back

  /** What may follow an address in a longer text without changing how it is read. */
  predicate Stops(tail: string) {
    tail != "" ==> !Matches(tail[0], 16) && tail[0] != ':' && tail[0] != '.'
  }

  /** The only addresses that print as text the parser rejects: those that begin with a zero
      and have no two zeros in a row. */
  predicate PrintsLoneColon(h: seq<nat>) {
    && |h| > 0 && h[0] == 0
    && forall i :: 0 <= i < |h| - 1 ==> h[i] != 0 || h[i + 1] != 0
  }

  lemma RunOfTwo(h: seq<nat>, i: nat)
    requires i <= |h|
    ensures ZeroRun(h, i) > 1 ==> i + 1 < |h| && h[i] == 0 && h[i + 1] == 0
  {
  }

  lemma LoneColonGap(h: seq<nat>)
    requires |h| > 0
    ensures PrintsLoneColon(h) <==> LongestGap(h, 0) == Gap(0, 1)
  {
    var g := LongestGap(h, 0);
    if PrintsLoneColon(h) {
      assert ZeroRun(h, 0) > 0;
      RunOfTwo(h, g.start);
    } else if h[0] == 0 {
      var i :| 0 <= i < |h| - 1 && h[i] == 0 && h[i + 1] == 0;
      var n := ZeroRun(h, i);
      assert n > 1;
    }
  }

  /** Inside the gap nothing is printed up to its last hextet. */
  lemma {:induction false} GapText(h: seq<nat>, g: Gap, i: nat)
    requires 0 < i && g.start <= i < g.start + g.len <= |h|
    ensures TextFrom(h, g, i) == ":" + TextFrom(h, g, g.start + g.len)
    decreases g.start + g.len - i
  {
    if i + 1 < g.start + g.len {
      GapText(h, g, i + 1);
    }
  }

  lemma LeadingGapText(h: seq<nat>, g: Gap)
    requires g.start == 0 && 1 < g.len <= |h|
    ensures TextFrom(h, g, 0) == "::" + TextFrom(h, g, g.len)
  {
    hide TextFrom, Piece;
    GapText(h, g, 1);
    TextStep(h, g, 0);
    PieceIs(h, g, 0);
  }

  lemma TextStep(h: seq<nat>, g: Gap, i: nat)
    requires i < |h|
    ensures TextFrom(h, g, i) == Piece(h, g, i) + TextFrom(h, g, i + 1)
  {
  }

  lemma PrintedText(h: seq<nat>, g: Gap, i: nat, tail: string)
    requires i < |h| && (i < g.start || g.start + g.len <= i)
    ensures i < |h| - 1 ==>
              TextFrom(h, g, i) + tail == Print(h[i], 16) + ":" + (TextFrom(h, g, i + 1) + tail)
    ensures i == |h| - 1 ==> TextFrom(h, g, i) + tail == Print(h[i], 16) + tail
  {
    hide Print;
    var d, rest := Print(h[i], 16), TextFrom(h, g, i + 1);
    if i == |h| - 1 {
      assert rest == "";
      assert Piece(h, g, i) == d;
    } else {
      assert (d + ":" + rest) + tail == d + ":" + (rest + tail);
    }
  }

  /** One printed hextet, followed by a colon, is one round of the loop. */
  lemma HextetThenColon(v: nat, more: string, a: seq<nat>, count: nat, gap: nat)
    requires v <= HEXTET_MAX && |a| == V6_SIZE
    requires count < V6_SIZE && gap <= V6_SIZE && (gap < V6_SIZE ==> gap <= count)
    ensures Hextets(Print(v, 16) + ":" + more, a, count, gap)
         == Hextets(more, a[count := v], count + 1, gap)
  {
    PrintRoundTrip(v, 16, HEXTET_MAX, ":" + more);
    assert Print(v, 16) + ":" + more == Print(v, 16) + (":" + more);
  }

  /** The last hextet ends the loop. */
  lemma HextetThenStop(v: nat, tail: string, a: seq<nat>, count: nat, gap: nat)
    requires v <= HEXTET_MAX && |a| == V6_SIZE && Stops(tail)
    requires count < V6_SIZE && gap <= V6_SIZE && (gap < V6_SIZE ==> gap <= count)
    ensures Hextets(Print(v, 16) + tail, a, count, gap)
         == Scan(true, tail, a[count := v], count + 1, gap)
  {
    PrintRoundTrip(v, 16, HEXTET_MAX, tail);
  }

  lemma NothingMore(tail: string, a: seq<nat>, count: nat, gap: nat)
    requires |a| == V6_SIZE && Stops(tail)
    requires count <= V6_SIZE && gap <= V6_SIZE && (gap < V6_SIZE ==> gap <= count)
    ensures Hextets(tail, a, count, gap) == Scan(true, tail, a, count, gap)
  {
  }

  /** A colon at the start of a round opens the gap when a hextet precedes it. */
  lemma ColonOpensGap(more: string, a: seq<nat>, count: nat)
    requires |a| == V6_SIZE && 0 < count < V6_SIZE
    ensures Hextets(":" + more, a, count, V6_SIZE) == Hextets(more, a, count, count)
  {
    assert (":" + more)[1..] == more;
    assert !Matches(':', 16);
  }

  lemma TwoColonsOpenGap(more: string, a: seq<nat>)
    requires |a| == V6_SIZE
    ensures Hextets("::" + more, a, 0, V6_SIZE) == Hextets(more, a, 0, 0)
  {
    var s := "::" + more;
    assert s[1..] == ":" + more;
    assert s[2..] == more;
    assert !Matches(':', 16);
  }

  /** Reading on behind the gap, or in an address without one. `i` is the next printed
      hextet, `missing` the number of hextets that the gap stands for. */
  lemma {:induction false} ReadTail(h: seq<nat>, g: Gap, i: nat, tail: string, a: seq<nat>, gap: nat) returns (b: seq<nat>)
    requires IsIpv6(h) && Stops(tail) && |a| == V6_SIZE
    requires g.start + g.len <= i <= V6_SIZE
    requires gap <= V6_SIZE && (gap < V6_SIZE ==> gap <= i - g.len)
    ensures |b| == V6_SIZE
    ensures forall k :: 0 <= k < i - g.len ==> b[k] == a[k]
    ensures forall k :: i - g.len <= k < V6_SIZE - g.len ==> b[k] == h[k + g.len]
    ensures Hextets(TextFrom(h, g, i) + tail, a, i - g.len, gap)
         == Scan(true, tail, b, V6_SIZE - g.len, gap)
    decreases V6_SIZE - i
  {
    hide Hextets, Print, Piece;
    var count := i - g.len;
    if i == V6_SIZE {
      NothingMore(tail, a, count, gap);
      assert TextFrom(h, g, i) + tail == tail;
      b := a;
    } else {
      var a1 := a[count := h[i]];
      if i == V6_SIZE - 1 {
        HextetThenStop(h[i], tail, a, count, gap);
        PrintedText(h, g, i, tail);
        b := a1;
      } else {
        var more := TextFrom(h, g, i + 1) + tail;
        HextetThenColon(h[i], more, a, count, gap);
        PrintedText(h, g, i, tail);
        b := ReadTail(h, g, i + 1, tail, a1, gap);
      }
    }
  }

  /** Reading the hextets before the gap. */
  lemma {:induction false} ReadHead(h: seq<nat>, g: Gap, i: nat, tail: string, a: seq<nat>) returns (b: seq<nat>)
    requires IsIpv6(h) && Stops(tail) && |a| == V6_SIZE
    requires 0 < g.len && 0 < i <= g.start && g.start + g.len <= V6_SIZE
    requires forall k :: 0 <= k < i ==> a[k] == h[k]
    ensures |b| == V6_SIZE
    ensures forall k :: 0 <= k < g.start ==> b[k] == h[k]
    ensures forall k :: g.start <= k < V6_SIZE - g.len ==> b[k] == h[k + g.len]
    ensures Hextets(TextFrom(h, g, i) + tail, a, i, V6_SIZE)
         == Scan(true, tail, b, V6_SIZE - g.len, g.start)
    decreases g.start - i
  {
    hide Hextets, Print, Piece, TextFrom;
    if i == g.start {
      var e := g.start + g.len;
      GapText(h, g, i);
      ColonOpensGap(TextFrom(h, g, e) + tail, a, i);
      assert TextFrom(h, g, i) + tail == ":" + (TextFrom(h, g, e) + tail);
      b := ReadTail(h, g, e, tail, a, i);
    } else {
      var more := TextFrom(h, g, i + 1) + tail;
      HextetThenColon(h[i], more, a, i, V6_SIZE);
      PrintedText(h, g, i, tail);
      b := ReadHead(h, g, i + 1, tail, a[i := h[i]]);
    }
  }

  /** The hextet loop over a whole printed address. */
  lemma ReadAll(h: seq<nat>, g: Gap, tail: string, a: seq<nat>) returns (b: seq<nat>)
    requires IsIpv6(h) && Stops(tail) && |a| == V6_SIZE
    requires g == LongestGap(h, 0) && g != Gap(0, 1)
    ensures |b| == V6_SIZE
    ensures forall k :: 0 <= k < g.start ==> b[k] == h[k]
    ensures forall k :: g.start <= k < V6_SIZE - g.len ==> b[k] == h[k + g.len]
    ensures Hextets(Ipv6Text(h) + tail, a, 0, V6_SIZE)
         == Scan(true, tail, b, V6_SIZE - g.len, g.start)
  {
    hide Hextets, Print, Piece, TextFrom;
    if g.len == 0 {
      b := ReadTail(h, Gap(0, 0), 0, tail, a, V6_SIZE);
      SameText(h, 0);
    } else if g.start == 0 {
      var more := TextFrom(h, g, g.len) + tail;
      LeadingGapText(h, g);
      assert Ipv6Text(h) + tail == "::" + more;
      TwoColonsOpenGap(more, a);
      b := ReadTail(h, g, g.len, tail, a, 0);
    } else {
      var more := TextFrom(h, g, 1) + tail;
      HextetThenColon(h[0], more, a, 0, V6_SIZE);
      PrintedText(h, g, 0, tail);
      b := ReadHead(h, g, 1, tail, a[0 := h[0]]);
    }
  }

  /** An empty gap leaves no trace in the text, wherever it is said to be. */
  lemma {:induction false} SameText(h: seq<nat>, i: nat)
    requires i <= |h|
    ensures TextFrom(h, Gap(|h|, 0), i) == TextFrom(h, Gap(0, 0), i)
    decreases |h| - i
  {
    if i < |h| {
      SameText(h, i + 1);
    }
  }

  lemma NoBracket(h: seq<nat>, tail: string)
    requires |h| == V6_SIZE
    ensures !StartsWith(Ipv6Text(h) + tail, '[')
    ensures Ipv6Text(h) != "" && (Matches(Ipv6Text(h)[0], 16) || Ipv6Text(h)[0] == ':')
  {
    var g := LongestGap(h, 0);
    assert Piece(h, g, 0) != "";
  }

  /** The printed form of an address is read back as that address, whatever address was in
      the array before and whatever follows in the text, unless it starts with a lone colon. */
  lemma Ipv6RoundTrip(h: seq<nat>, a: seq<nat>, tail: string)
    requires IsIpv6(h) && |a| == V6_SIZE && Stops(tail)
    requires !PrintsLoneColon(h)
    ensures ParseIpv6(Ipv6Text(h) + tail, a) == IpParse(true, tail, h)
  {
    hide LongestGap, Ipv6Text, Hextets, ZeroRun;
    var g := LongestGap(h, 0);
    LoneColonGap(h);
    NoBracket(h, tail);
    var b := ReadAll(h, g, tail, a);
    if g.len > 0 {
      var n := g.start + g.len;
      assert forall k :: g.start <= k < n ==> h[k] == 0;
      assert Expand(b, V6_SIZE - g.len, g.start) == h;
    } else {
      assert b == h;
    }
  }

  /** And when it does, the text is rejected, having written nothing. */
  lemma LoneColonRejected(h: seq<nat>, a: seq<nat>, tail: string)
    requires IsIpv6(h) && |a| == V6_SIZE && Stops(tail)
    requires PrintsLoneColon(h)
    ensures var p := ParseIpv6(Ipv6Text(h) + tail, a);
            !p.ok && p.host == a
  {
    var g := LongestGap(h, 0);
    LoneColonGap(h);
    NoBracket(h, tail);
    var s := Ipv6Text(h) + tail;
    var more := TextFrom(h, g, 1) + tail;
    assert s == ":" + more;
    assert s[1..] == more;
    assert h[1] != 0 && Piece(h, g, 1) == Print(h[1], 16) + ":";
    assert more[0] == Print(h[1], 16)[0];
    assert !StartsWith(more, ':');
    assert !Matches(':', 16);
  }

  /** Both halves together: printing followed by parsing is the identity, with no input left,
      for exactly the addresses outside `PrintsLoneColon`. */
  lemma Ipv6RoundTripExactly(h: seq<nat>, a: seq<nat>)
    requires IsIpv6(h) && |a| == V6_SIZE
    ensures ParseIpv6(Ipv6Text(h), a) == IpParse(true, "", h) <==> !PrintsLoneColon(h)
  {
    assert Ipv6Text(h) + "" == Ipv6Text(h);
    if PrintsLoneColon(h) {
      LoneColonRejected(h, a, "");
    } else {
      Ipv6RoundTrip(h, a, "");
    }
  }
}
