/** Ranges of either address family (`range<void>` of hostaddress.hpp): IPv4 is tried first, and
    what comes out as a valid range is taken. */
module AnyRange {
  import opened Options
  import opened Parser
  import opened Bits
  import opened HostAddress
  import opened Ipv6Printer
  import opened Prefix
  import opened AddressRange

  /** The source's variant; `Nothing` is the invalid one. */
  datatype AnyRange = Nothing | Of(kind: Kind, range: Range)

  function ParseAny(s: string): AnyRange {
    var r4, r6 := ParseRange(V4, s), ParseRange(V6, s);
    if r4.IsValid() then Of(V4, r4)
    else if r6.IsValid() then Of(V6, r6)
    else Nothing
  }

  method ReadAny(text: string) returns (r: AnyRange)
    ensures r == ParseAny(text)
  {
    var r4 := ReadRange(V4, text);
    if r4.IsValid() {
      return Of(V4, r4);
    }
    var r6 := ReadRange(V6, text);
    if r6.IsValid() {
      return Of(V6, r6);
    }
    r := Nothing;
  }

  // ---------------------------------------------------------------- telling the families apart

  predicate NoDot(s: string) {
    forall i :: 0 <= i < |s| ==> s[i] != '.'
  }

  /** An IPv4 address cannot be read where there is no dot. */
  lemma Ipv4NeedsDot(s: string, h: seq<nat>)
    requires |h| == V4_SIZE && NoDot(s)
    ensures !ParseIpv4(s, '.', h).ok
  {
    hide Value, DigitRun;
    var p := Octet(IpParse(true, s, h), 0);
    if p.ok {
      var n := DigitRun(s, 10);
      assert p.rest == s[n..];
      assert p.rest != "" ==> p.rest[0] == s[n];
    }
  }

  lemma PrintHasNoDot(n: nat, base: nat)
    requires base == 10 || base == 16
    ensures NoDot(Print(n, base))
  {
    var s := Print(n, base);
    forall i | 0 <= i < |s|
      ensures s[i] != '.'
    {
      assert Matches(s[i], base);
    }
  }

  lemma NoDotConcat(a: string, b: string)
    ensures NoDot(a + b) <==> NoDot(a) && NoDot(b)
  {
    assert forall i :: 0 <= i < |a| ==> (a + b)[i] == a[i];
    assert forall i :: 0 <= i < |b| ==> (a + b)[|a| + i] == b[i];
  }

  lemma {:induction false} TextHasNoDot(h: seq<nat>, g: Gap, i: nat)
    requires i <= |h|
    ensures NoDot(TextFrom(h, g, i))
    decreases |h| - i
  {
    hide NoDot, Print;
    if i < |h| {
      TextHasNoDot(h, g, i + 1);
      PrintHasNoDot(h[i], 16);
      ColonIsNoDot();
      NoDotConcat(Print(h[i], 16), if i != |h| - 1 then ":" else "");
      NoDotConcat(Piece(h, g, i), TextFrom(h, g, i + 1));
    } else {
      ColonIsNoDot();
    }
  }

  lemma ColonIsNoDot()
    ensures NoDot(":") && NoDot("") && NoDot("-") && NoDot("/")
  {
  }

  /** What is printed for an IPv6 range is never taken for an IPv4 range. */
  lemma Ipv6IsNotIpv4(r: Range, prefix: Option<nat>)
    requires IsHost(V6, r.from) && IsHost(V6, r.to)
    ensures !ParseRange(V4, RangeText(V6, r, prefix)).IsValid()
  {
    hide NoDot, ParseIpv4, Print, Ipv6Text, StartsWith;
    var s := RangeText(V6, r, prefix);
    var from := HostText(V6, r.from);
    var tail := s[|from|..];
    assert s == from + tail;
    NoStar(V6, r.from, tail);
    ColonIsNoDot();
    HostTextHasNoDot(r.from);
    HostTextHasNoDot(r.to);
    NoDotConcat("-", HostText(V6, r.to));
    NoDotConcat(from, "-" + HostText(V6, r.to));
    if prefix.Some? {
      PrintHasNoDot(prefix.value, 10);
      NoDotConcat("/", Print(prefix.value, 10));
      NoDotConcat(from, "/" + Print(prefix.value, 10));
    }
    assert NoDot(s);
    Ipv4NeedsDot(s, Zeros(V4));
  }

  lemma HostTextHasNoDot(h: seq<nat>)
    requires |h| == V6_SIZE
    ensures NoDot(HostText(V6, h))
  {
    TextHasNoDot(h, LongestGap(h, 0), 0);
  }

  // ---------------------------------------------------------------- round trip

  /** A block starts no later than it ends, in every word. */
  lemma BlockIsOrdered(kind: Kind, r: Range, p: nat)
    requires IsHost(kind, r.from) && IsHost(kind, r.to)
    requires IsPrefixOf(kind, r.from, r.to, Some(p))
    ensures r.IsValid()
  {
    hide Number, IsBlock, LowEnd, HighEnd, Cleared, Filled, Max, IsHost;
    var w, k := kind.WordWidth(), kind.BitWidth() - p;
    HostIsWords(kind, r.from);
    HostIsWords(kind, r.to);
    BlockIsItsEnds(r.from, r.to, w, k);
    FirstWordsOrdered(r.from, w, k);
  }

  /** Which printed ranges come back as the range and the family that they were, when the
      family has to be found out too: the same ones as when it is known. */
  lemma AnyRoundTripExactly(kind: Kind, r: Range, prefix: Option<nat>)
    requires IsHost(kind, r.from) && IsHost(kind, r.to)
    requires IsPrefixOf(kind, r.from, r.to, prefix)
    ensures ParseAny(RangeText(kind, r, prefix)) == Of(kind, r)
       <==> && Printable(kind, r.from)
            && (prefix == None ==> Printable(kind, r.to) && LessOrEqual(r.from, r.to))
  {
    hide ParseRange, RangeText, Printable;
    RangeRoundTripExactly(kind, r, prefix);
    if prefix.Some? {
      BlockIsOrdered(kind, r, prefix.value);
    }
    if kind.V6? {
      Ipv6IsNotIpv4(r, prefix);
    }
  }

  // ---------------------------------------------------------------- intervals that are lost

  /** When an interval that is written out is a valid range: if its ends are in order word by
      word, or their first words are not in ascending order. Otherwise the ends are swapped, and
      the swapped pair counts as invalid. */
  lemma IntervalValidExactly(kind: Kind, a: seq<nat>, b: seq<nat>)
    requires IsHost(kind, a) && IsHost(kind, b) && Printable(kind, a) && Printable(kind, b)
    ensures ParseRange(kind, HostText(kind, a) + ("-" + HostText(kind, b))).IsValid()
       <==> LessOrEqual(a, b) || b[0] <= a[0]
  {
    hide HostText, ParseRange, Printable;
    IntervalRoundTrip(kind, Range(a, b));
  }

  /** From 0.6.0.0 to 1.5.0.0 the addresses ascend; the text for that is refused. */
  lemma AscendingIntervalIsLost()
    ensures Number([0, 6, 0, 0], 8) < Number([1, 5, 0, 0], 8)
    ensures !ParseRange(V4, HostText(V4, [0, 6, 0, 0]) + ("-" + HostText(V4, [1, 5, 0, 0]))).IsValid()
  {
    hide HostText, ParseRange;
    IntervalValidExactly(V4, [0, 6, 0, 0], [1, 5, 0, 0]);
    assert !LessOrEqual([0, 6, 0, 0], [1, 5, 0, 0]) by {
      assert [0, 6, 0, 0][1] == 6;
    }
    NumberOfTwo(0, 6);
    NumberOfTwo(1, 5);
  }

  lemma NumberOfTwo(a: nat, b: nat)
    ensures Number([a, b, 0, 0], 8) == a * 0x100_0000 + b * 0x1_0000
  {
    hide Shl;
    NumberSnoc([], a, 8);
    NumberSnoc([a], b, 8);
    NumberSnoc([a, b], 0, 8);
    NumberSnoc([a, b, 0], 0, 8);
    assert [] + [a] == [a] && [a] + [b] == [a, b] && [a, b] + [0] == [a, b, 0] && [a, b, 0] + [0] == [a, b, 0, 0];
    ByteShift(Number([], 8));
    ByteShift(Number([a], 8));
    ByteShift(Number([a, b], 8));
    ByteShift(Number([a, b, 0], 8));
  }

  lemma ByteShift(x: nat)
    ensures Shl(x, 8) == x * 256
  {
    assert Pow2(8) == 256 by {
      assert Pow2(4) == 16;
    }
  }
}
