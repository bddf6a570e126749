/** Address ranges: `parse_ip_range` and `range<Host>::parse` of hostaddress.hpp,
    `range<Host>::to_string` of hostaddress.cpp. */
module AddressRange {
  import opened Options
  import opened Parser
  import opened Bits
  import opened HostAddress
  import opened Ipv6Printer
  import opened Prefix

  /** The two instances of the source's `Host` template parameter. */
  datatype Kind = V4 | V6 {
    function Size(): nat {
      if V4? then V4_SIZE else V6_SIZE
    }

    function WordWidth(): nat {
      if V4? then 8 else 16
    }

    function BitWidth(): nat {
      if V4? then 32 else 128
    }
  }

  predicate IsHost(kind: Kind, h: seq<nat>) {
    if kind.V4? then IsIpv4(h) else IsIpv6(h)
  }

  function Zeros(kind: Kind): (h: seq<nat>)
    ensures |h| == kind.Size()
  {
    seq(kind.Size(), _ => 0)
  }

  function Ones(kind: Kind): (h: seq<nat>)
    ensures |h| == kind.Size()
  {
    seq(kind.Size(), _ => Max(kind.WordWidth()))
  }

  function ParseHost(kind: Kind, s: string, h: seq<nat>): (p: IpParse)
    requires |h| == kind.Size()
    ensures |p.host| == kind.Size()
  {
    if kind.V4? then ParseIpv4(s, '.', h) else ParseIpv6(s, h)
  }

  function HostText(kind: Kind, h: seq<nat>): string
    requires |h| == kind.Size()
  {
    if kind.V4? then Ipv4Text(h) else Ipv6Text(h)
  }

  /** The componentwise comparison of the source. It is not the numerical order. */
  predicate LessOrEqual(a: seq<nat>, b: seq<nat>)
    requires |a| == |b|
  {
    forall i :: 0 <= i < |a| ==> a[i] <= b[i]
  }

  datatype RangeParse = RangeParse(ok: bool, rest: string, from: seq<nat>, to: seq<nat>)

  /** `*`, `ip-ip`, `ip/prefix` or a single `ip`. */
  function ParseIpRange(kind: Kind, s: string, from: seq<nat>, to: seq<nat>): (r: RangeParse)
    requires |from| == |to| == kind.Size()
    ensures |r.from| == |r.to| == kind.Size()
  {
    if StartsWith(s, '*') then
      RangeParse(true, s[1..], Zeros(kind), Ones(kind))
    else
      var p := ParseHost(kind, s, from);
      if !p.ok then
        RangeParse(false, p.rest, p.host, to)
      else if StartsWith(p.rest, '-') then
        var q := ParseHost(kind, p.rest[1..], to);
        if q.ok && !LessOrEqual(p.host, q.host) then RangeParse(true, q.rest, q.host, p.host)
        else RangeParse(q.ok, q.rest, p.host, q.host)
      else if StartsWith(p.rest, '/') then
        match ParseInt(p.rest[1..], 10, 255)
        case NoInt => RangeParse(false, p.rest[1..], p.host, to)
        case Int(prefix, rest) =>
          if prefix > kind.BitWidth() then RangeParse(false, rest, p.host, to)
          else
            var k := kind.BitWidth() - prefix;
            RangeParse(true, rest,
                       LowEnd(p.host, kind.WordWidth(), k), HighEnd(p.host, kind.WordWidth(), k))
      else
        RangeParse(true, p.rest, p.host, p.host)
  }

  /** A range; the source marks an invalid one by making its first words out of order. */
  datatype Range = Range(from: seq<nat>, to: seq<nat>) {
    predicate IsValid()
      requires from != [] && to != []
    {
      from[0] <= to[0]
    }
  }

  /** `range<Host>::parse`: the whole text has to be used up. */
  function ParseRange(kind: Kind, s: string): (r: Range)
    ensures |r.from| == |r.to| == kind.Size()
  {
    var p := ParseIpRange(kind, s, Zeros(kind), Zeros(kind));
    if p.ok && p.rest == "" then Range(p.from, p.to)
    else Range(p.from[0 := 1], p.to[0 := 0])
  }

  // ---------------------------------------------------------------- the parsers

  method ReadHost(kind: Kind, r: Cursor, h: array<nat>) returns (ok: bool)
    requires r.Valid() && h.Length == kind.Size()
    modifies r, h
    ensures r.Valid()
    ensures IpParse(ok, r.Rest(), h[..]) == ParseHost(kind, old(r.Rest()), old(h[..]))
  {
    if kind.V4? {
      ok := ReadIpv4(r, h, '.');
    } else {
      ok := ReadIpv6(r, h);
    }
  }

  method IsLessOrEqual(a: array<nat>, b: array<nat>) returns (ok: bool)
    requires a.Length == b.Length
    ensures ok == LessOrEqual(a[..], b[..])
  {
    for i := 0 to a.Length
      invariant forall j :: 0 <= j < i ==> a[j] <= b[j]
    {
      if !(a[i] <= b[i]) {
        assert !(a[..][i] <= b[..][i]);
        return false;
      }
    }
    return true;
  }

  method Fill(h: array<nat>, v: nat)
    modifies h
    ensures h[..] == seq(h.Length, _ => v)
  {
    for i := 0 to h.Length
      invariant forall j :: 0 <= j < i ==> h[j] == v
    {
      h[i] := v;
    }
  }

  method Copy(a: array<nat>, b: array<nat>)
    requires a != b && a.Length == b.Length
    modifies b
    ensures b[..] == a[..]
  {
    for i := 0 to a.Length
      invariant b[..i] == a[..i]
    {
      b[i] := a[i];
    }
    assert a[..] == a[..a.Length] && b[..] == b[..a.Length];
  }

  method Swap(a: array<nat>, b: array<nat>)
    requires a != b && a.Length == b.Length
    modifies a, b
    ensures a[..] == old(b[..]) && b[..] == old(a[..])
  {
    var tmp := new nat[a.Length](_ => 0);
    Copy(a, tmp);
    Copy(b, a);
    Copy(tmp, b);
  }

  /** The interval form, after the dash. */
  method ReadInterval(kind: Kind, r: Cursor, from: array<nat>, to: array<nat>) returns (ok: bool)
    requires r.Valid() && from != to && from.Length == to.Length == kind.Size()
    modifies r, from, to
    ensures r.Valid()
    ensures var q := ParseHost(kind, old(r.Rest()), old(to[..]));
            && ok == q.ok && r.Rest() == q.rest
            && if q.ok && !LessOrEqual(old(from[..]), q.host) then
                 from[..] == q.host && to[..] == old(from[..])
               else
                 from[..] == old(from[..]) && to[..] == q.host
  {
    hide ParseHost, LessOrEqual;
    ok := ReadHost(kind, r, to);
    if ok {
      var ordered := IsLessOrEqual(from, to);
      if !ordered {
        Swap(from, to);
      }
    }
  }

  /** The CIDR form, after the slash. */
  method ReadPrefix(kind: Kind, r: Cursor, from: array<nat>, to: array<nat>) returns (ok: bool)
    requires r.Valid() && from != to && from.Length == to.Length == kind.Size()
    requires IsHost(kind, from[..])
    modifies r, from, to
    ensures r.Valid()
    ensures match ParseInt(old(r.Rest()), 10, 255)
            case NoInt =>
              !ok && r.Rest() == old(r.Rest()) && from[..] == old(from[..]) && to[..] == old(to[..])
            case Int(prefix, rest) =>
              && r.Rest() == rest && ok == (prefix <= kind.BitWidth())
              && if ok then
                   && from[..] == LowEnd(old(from[..]), kind.WordWidth(), kind.BitWidth() - prefix)
                   && to[..] == HighEnd(old(from[..]), kind.WordWidth(), kind.BitWidth() - prefix)
                 else
                   from[..] == old(from[..]) && to[..] == old(to[..])
  {
    hide ParseInt, LowEnd, HighEnd, IsHost, IsWords;
    var prefix := r.ReadInt(10, 255);
    ok := prefix.Some? && prefix.value <= kind.BitWidth();
    if ok {
      Copy(from, to);
      HostIsWords(kind, from[..]);
      FillSubnet(from, to, kind.WordWidth(), prefix.value);
    }
  }

  lemma HostIsWords(kind: Kind, h: seq<nat>)
    requires IsHost(kind, h)
    ensures IsWords(h, kind.WordWidth()) && Width(|h|, kind.WordWidth()) == kind.BitWidth()
  {
    assert Pow2(8) == OCTET_MAX + 1 && Pow2(16) == HEXTET_MAX + 1;
  }

  lemma HostBounded(kind: Kind, s: string, h: seq<nat>)
    requires |h| == kind.Size() && IsHost(kind, h)
    ensures IsHost(kind, ParseHost(kind, s, h).host)
  {
    if kind.V4? {
      Ipv4Bounded(s, '.', h);
    } else {
      Ipv6Bounded(s, h);
    }
  }

  /** `parse_ip_range`. */
  method ReadIpRange(kind: Kind, r: Cursor, from: array<nat>, to: array<nat>) returns (ok: bool)
    requires r.Valid() && from != to && from.Length == to.Length == kind.Size()
    requires IsHost(kind, from[..])
    modifies r, from, to
    ensures r.Valid()
    ensures RangeParse(ok, r.Rest(), from[..], to[..])
         == ParseIpRange(kind, old(r.Rest()), old(from[..]), old(to[..]))
  {
    hide ParseHost, LessOrEqual, ParseInt, LowEnd, HighEnd, Max, IsHost;
    ok := r.Lit('*');
    if ok {
      Fill(from, 0);
      Fill(to, Max(kind.WordWidth()));
      return;
    }
    HostBounded(kind, r.Rest(), from[..]);
    ok := ReadHost(kind, r, from);
    if !ok {
      return;
    }
    var dash := r.Lit('-');
    if dash {
      ok := ReadInterval(kind, r, from, to);
      return;
    }
    var slash := r.Lit('/');
    if slash {
      ok := ReadPrefix(kind, r, from, to);
      return;
    }
    Copy(from, to);
  }

  /** `range<Host>::parse`. */
  method ReadRange(kind: Kind, text: string) returns (r: Range)
    ensures r == ParseRange(kind, text)
  {
    hide ParseIpRange;
    var c := new Cursor(text);
    var from := new nat[kind.Size()](_ => 0);
    var to := new nat[kind.Size()](_ => 0);
    assert from[..] == Zeros(kind) && to[..] == Zeros(kind);
    var ok := ReadIpRange(kind, c, from, to);
    var done := false;
    if ok {
      done := c.Eol();
    }
    if !done {
      from[0] := 1;
      to[0] := 0;
    }
    r := Range(from[..], to[..]);
  }

  // ---------------------------------------------------------------- printing

  /** The prefix length of a range that is a block, as the source computes it. */
  ghost predicate IsPrefixOf(kind: Kind, from: seq<nat>, to: seq<nat>, prefix: Option<nat>) {
    var w := kind.WordWidth();
    match prefix
    case Some(p) =>
      p <= kind.BitWidth() && IsBlock(Number(from, w), Number(to, w), kind.BitWidth() - p)
    case None =>
      forall k: nat :: k <= kind.BitWidth() ==> !IsBlock(Number(from, w), Number(to, w), k)
  }

  lemma PrefixIsUnique(kind: Kind, from: seq<nat>, to: seq<nat>, a: Option<nat>, b: Option<nat>)
    requires IsPrefixOf(kind, from, to, a) && IsPrefixOf(kind, from, to, b)
    ensures a == b
  {
    hide IsBlock, Number;
    var f, t := Number(from, kind.WordWidth()), Number(to, kind.WordWidth());
    if a.Some? && b.Some? {
      BlockSizeIsUnique(f, t, kind.BitWidth() - a.value, kind.BitWidth() - b.value);
    }
  }

  /** The text of a range whose prefix length is known. */
  function RangeText(kind: Kind, r: Range, prefix: Option<nat>): string
    requires |r.from| == |r.to| == kind.Size()
  {
    if prefix == None || (prefix == Some(kind.BitWidth()) && r.to != r.from) then
      HostText(kind, r.from) + ("-" + HostText(kind, r.to))
    else if prefix != Some(kind.BitWidth()) then
      HostText(kind, r.from) + ("/" + Print(prefix.value, 10))
    else
      HostText(kind, r.from)
  }

  method HostToString(kind: Kind, h: seq<nat>) returns (s: string)
    requires |h| == kind.Size()
    ensures s == HostText(kind, h)
  {
    if kind.V4? {
      s := Ipv4Text(h);
    } else {
      s := ToString(h);
    }
  }

  /** `range<Host>::to_string`. */
  method RangeToString(kind: Kind, r: Range) returns (s: string)
    requires IsHost(kind, r.from) && IsHost(kind, r.to)
    ensures exists prefix :: IsPrefixOf(kind, r.from, r.to, prefix) && s == RangeText(kind, r, prefix)
  {
    hide HostText, IsBlock, Number, Print;
    HostIsWords(kind, r.from);
    HostIsWords(kind, r.to);
    var p := CalcPrefix(r.from, r.to, kind.WordWidth());
    s := HostToString(kind, r.from);
    if p == None || (p == Some(kind.BitWidth()) && r.to != r.from) {
      var t := HostToString(kind, r.to);
      s := s + ("-" + t);
    } else if p != Some(kind.BitWidth()) {
      s := s + ("/" + Print(p.value, 10));
    }
    assert IsPrefixOf(kind, r.from, r.to, p) && s == RangeText(kind, r, p);
  }

  /** A prefix of full width belongs to a single address: the test whether the ends differ then
      never succeeds. */
  lemma FullPrefixIsOneAddress(kind: Kind, r: Range)
    requires IsHost(kind, r.from) && IsHost(kind, r.to)
    requires IsPrefixOf(kind, r.from, r.to, Some(kind.BitWidth()))
    ensures r.to == r.from
  {
    hide Number, IsBlock, LowEnd, HighEnd, IsHost;
    HostIsWords(kind, r.from);
    HostIsWords(kind, r.to);
    BlockIsItsEnds(r.from, r.to, kind.WordWidth(), 0);
    LowEndOfNothing(r.from, kind.WordWidth());
  }

  // ---------------------------------------------------------------- round trip

  /** The addresses whose own text is read back. */
  predicate Printable(kind: Kind, h: seq<nat>) {
    kind.V4? || !PrintsLoneColon(h)
  }

  predicate StopsHost(tail: string) {
    Stops(tail) && (tail != "" ==> !Matches(tail[0], 10))
  }

  lemma HostRoundTrip(kind: Kind, h: seq<nat>, g: seq<nat>, tail: string)
    requires IsHost(kind, h) && |g| == kind.Size() && StopsHost(tail)
    ensures Printable(kind, h) ==> ParseHost(kind, HostText(kind, h) + tail, g) == IpParse(true, tail, h)
    ensures !Printable(kind, h) ==>
              var p := ParseHost(kind, HostText(kind, h) + tail, g);
              !p.ok && p.host == g && h[0] == 0 && h[1] != 0
  {
    if kind.V4? {
      Ipv4RoundTrip(h, g, tail);
    } else if Printable(kind, h) {
      Ipv6RoundTrip(h, g, tail);
    } else {
      LoneColonRejected(h, g, tail);
    }
  }

  lemma NoStar(kind: Kind, h: seq<nat>, tail: string)
    requires |h| == kind.Size()
    ensures !StartsWith(HostText(kind, h) + tail, '*')
  {
    if kind.V4? {
      var d := Print(h[0], 10);
      assert Matches(d[0], 10);
      assert Ipv4Text(h)[0] == d[0];
    } else {
      NoBracket(h, tail);
    }
  }

  /** A single address and a prefix are read back whenever the address is. */
  lemma BlockRoundTrip(kind: Kind, r: Range, p: nat)
    requires IsHost(kind, r.from) && IsHost(kind, r.to)
    requires IsPrefixOf(kind, r.from, r.to, Some(p)) && Printable(kind, r.from)
    ensures ParseRange(kind, RangeText(kind, r, Some(p))) == r
  {
    hide ParseHost, HostText, Number, LowEnd, HighEnd, Pow2, Max, IsBlock, IsHost, IsWords, ParseInt, Printable, Print;
    var w, k := kind.WordWidth(), kind.BitWidth() - p;
    HostIsWords(kind, r.from);
    HostIsWords(kind, r.to);
    BlockIsItsEnds(r.from, r.to, w, k);
    if p == kind.BitWidth() {
      LowEndOfNothing(r.from, w);
      HostRoundTrip(kind, r.from, Zeros(kind), "");
      NoStar(kind, r.from, "");
      assert HostText(kind, r.from) + "" == HostText(kind, r.from);
    } else {
      var tail := "/" + Print(p, 10);
      HostRoundTrip(kind, r.from, Zeros(kind), tail);
      NoStar(kind, r.from, tail);
      assert tail[1..] == Print(p, 10) == Print(p, 10) + "";
      PrintRoundTrip(p, 10, 255, "");
    }
  }

  /** The interval form is read back exactly when both addresses are, and the first is at most
      the second in every word; otherwise the two come back swapped. */
  lemma IntervalRoundTrip(kind: Kind, r: Range)
    requires IsHost(kind, r.from) && IsHost(kind, r.to) && Printable(kind, r.from)
    ensures ParseRange(kind, RangeText(kind, r, None)) == r
       <==> Printable(kind, r.to) && LessOrEqual(r.from, r.to)
    ensures Printable(kind, r.to) && !LessOrEqual(r.from, r.to) ==>
              ParseRange(kind, RangeText(kind, r, None)) == Range(r.to, r.from)
  {
    hide ParseHost, HostText, LowEnd, HighEnd, Pow2, Max, ParseInt, Printable, Print;
    var tail := "-" + HostText(kind, r.to);
    HostRoundTrip(kind, r.from, Zeros(kind), tail);
    NoStar(kind, r.from, tail);
    assert tail[1..] == HostText(kind, r.to) == HostText(kind, r.to) + "";
    HostRoundTrip(kind, r.to, Zeros(kind), "");
    if !Printable(kind, r.to) {
      assert ParseRange(kind, RangeText(kind, r, None)).to[1] == 0;
    }
  }

  /** A range whose first address is not printable is never read back. */
  lemma LostFrom(kind: Kind, r: Range, prefix: Option<nat>)
    requires IsHost(kind, r.from) && IsHost(kind, r.to) && !Printable(kind, r.from)
    ensures ParseRange(kind, RangeText(kind, r, prefix)) != r
  {
    hide ParseHost, HostText, Pow2, Max, Printable, Print;
    var text := RangeText(kind, r, prefix);
    var from := HostText(kind, r.from);
    var tail := text[|from|..];
    assert text == from + tail;
    assert StopsHost(tail);
    HostRoundTrip(kind, r.from, Zeros(kind), tail);
    NoStar(kind, r.from, tail);
  }

  /** Which ranges survive being printed and parsed: a block or a single address if its first
      address is printable, and any other range if both are and they are in order word by
      word. */
  lemma RangeRoundTripExactly(kind: Kind, r: Range, prefix: Option<nat>)
    requires IsHost(kind, r.from) && IsHost(kind, r.to)
    requires IsPrefixOf(kind, r.from, r.to, prefix)
    ensures ParseRange(kind, RangeText(kind, r, prefix)) == r
       <==> && Printable(kind, r.from)
            && (prefix == None ==> Printable(kind, r.to) && LessOrEqual(r.from, r.to))
  {
    hide ParseRange, RangeText, IsHost, Printable, LessOrEqual;
    if !Printable(kind, r.from) {
      LostFrom(kind, r, prefix);
    } else if prefix == None {
      IntervalRoundTrip(kind, r);
    } else {
      BlockRoundTrip(kind, r, prefix.value);
    }
  }

  // ---------------------------------------------------------------- what a range denotes

  /** The address is between the ends, as numbers. */
  predicate Contains(kind: Kind, r: Range, x: seq<nat>) {
    Number(r.from, kind.WordWidth()) <= Number(x, kind.WordWidth()) <= Number(r.to, kind.WordWidth())
  }

  /** A star is the range from the first address there is to the last one. */
  lemma StarIsEverything(kind: Kind, x: seq<nat>)
    requires IsHost(kind, x)
    ensures var r := ParseRange(kind, "*");
            && r.IsValid() && Contains(kind, r, x)
            && forall i :: 0 <= i < kind.Size() ==> r.from[i] == 0 && r.to[i] == if kind.V4? then 255 else 0xffff
  {
    hide Number, ParseHost;
    assert "*"[1..] == "";
    assert Max(8) == 255 && Max(16) == 0xffff by {
      assert Pow2(8) == 256 && Pow2(16) == 0x1_0000;
    }
    var r := ParseRange(kind, "*");
    hide Max, ParseRange;
    HostIsWords(kind, x);
    NumberBetween(x, r.from, r.to, kind.WordWidth());
  }

  /** A number grows with its words. */
  lemma {:induction false} NumberBetween(x: seq<nat>, lo: seq<nat>, hi: seq<nat>, w: nat)
    requires |lo| == |x| == |hi| && forall i :: 0 <= i < |x| ==> lo[i] <= x[i] <= hi[i]
    ensures Number(lo, w) <= Number(x, w) <= Number(hi, w)
  {
    hide Shl;
    if x != [] {
      var n := |x| - 1;
      NumberBetween(x[..n], lo[..n], hi[..n], w);
      ShlMono(Number(lo[..n], w), Number(x[..n], w), w);
      ShlMono(Number(x[..n], w), Number(hi[..n], w), w);
    }
  }

  /** An address with a prefix length is the range of the addresses that share its first bits; a
      length beyond the width is refused. */
  lemma CidrDenotes(kind: Kind, h: seq<nat>, p: nat, x: seq<nat>)
    requires IsHost(kind, h) && IsHost(kind, x) && Printable(kind, h)
    ensures var r := ParseRange(kind, HostText(kind, h) + ("/" + Print(p, 10)));
            var w := kind.WordWidth();
            if p > kind.BitWidth() then !r.IsValid()
            else
              && r.IsValid()
              && (Contains(kind, r, x) <==>
                  Hi(Number(x, w), kind.BitWidth() - p) == Hi(Number(h, w), kind.BitWidth() - p))
  {
    hide ParseHost, HostText, Number, LowEnd, HighEnd, Pow2, Max, IsBlock, IsHost, IsWords, ParseInt, Printable, Print, Hi;
    var tail := "/" + Print(p, 10);
    HostRoundTrip(kind, h, Zeros(kind), tail);
    NoStar(kind, h, tail);
    HostIsWords(kind, h);
    assert tail[1..] == Print(p, 10) == Print(p, 10) + "";
    if p <= 255 {
      PrintRoundTrip(p, 10, 255, "");
    } else {
      PrintTooLarge(p, 10, 255);
    }
    if p <= kind.BitWidth() {
      var k := kind.BitWidth() - p;
      PrefixEnds(h, kind.WordWidth(), k, Number(x, kind.WordWidth()));
      FirstWordsOrdered(h, kind.WordWidth(), k);
    }
  }

  lemma PrintTooLarge(n: nat, base: nat, max: nat)
    requires base == 10 || base == 16
    requires n > max
    ensures ParseInt(Print(n, base), base, max) == NoInt
  {
    hide Print, Value;
    var d := Print(n, base);
    DigitRunOf(d, "", base);
    assert d + "" == d && d[..|d|] == d;
    PrintDenotes(n, base);
  }

  lemma {:induction false} FirstWordsOrdered(h: seq<nat>, w: nat, k: nat)
    requires w > 0 && h != [] && k <= Width(|h|, w) && IsWords(h, w)
    ensures LowEnd(h, w, k)[0] <= HighEnd(h, w, k)[0]
    decreases |h|
  {
    hide Max, Width, Pow2, Cleared, Filled;
    var a, d := h[..|h| - 1], h[|h| - 1];
    ClearedBelowFilled(d, k);
    WidthStep(|a|, w);
    if k >= w && a != [] {
      FirstWordsOrdered(a, w, k - w);
    }
  }

  lemma ClearedBelowFilled(d: nat, k: nat)
    ensures Cleared(d, k) <= Filled(d, k)
  {
  }
}
