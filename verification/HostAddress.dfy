/** IPv4 and IPv6 addresses as text: `parse_ip` of hostaddress.hpp and `to_string` of
    hostaddress.cpp. An address is an array of xtets, most significant first. */
module HostAddress {
  import opened Options
  import opened Parser

  const V4_SIZE := 4
  const V6_SIZE := 8
  const OCTET_MAX := 0xff
  const HEXTET_MAX := 0xffff

  predicate IsIpv4(h: seq<nat>) {
    |h| == V4_SIZE && forall i :: 0 <= i < |h| ==> h[i] <= OCTET_MAX
  }

  predicate IsIpv6(h: seq<nat>) {
    |h| == V6_SIZE && forall i :: 0 <= i < |h| ==> h[i] <= HEXTET_MAX
  }

  /** Outcome of parsing an address: what is left to read, and the array that was filled,
      which a failure may leave partly written. */
  datatype IpParse = IpParse(ok: bool, rest: string, host: seq<nat>)

  // ---------------------------------------------------------------- IPv4

  function Octet(p: IpParse, i: nat): (q: IpParse)
    requires |p.host| == V4_SIZE && i < V4_SIZE
    ensures |q.host| == V4_SIZE
  {
    if !p.ok then p
    else match ParseInt(p.rest, 10, OCTET_MAX)
      case NoInt => p.(ok := false)
      case Int(v, rest) => IpParse(true, rest, p.host[i := v])
  }

  function Separator(p: IpParse, sep: char): IpParse {
    if !p.ok then p
    else if StartsWith(p.rest, sep) then p.(rest := p.rest[1..])
    else p.(ok := false)
  }

  /** Four decimal octets with `sep` between them. */
  function ParseIpv4(s: string, sep: char, h: seq<nat>): (p: IpParse)
    requires |h| == V4_SIZE
    ensures |p.host| == V4_SIZE
  {
    var p0 := Separator(Octet(IpParse(true, s, h), 0), sep);
    var p1 := Separator(Octet(p0, 1), sep);
    var p2 := Separator(Octet(p1, 2), sep);
    Octet(p2, 3)
  }

  lemma OctetBounded(p: IpParse, i: nat)
    requires IsIpv4(p.host) && i < V4_SIZE
    ensures IsIpv4(Octet(p, i).host)
  {
    hide ParseInt;
  }

  lemma Ipv4Bounded(s: string, sep: char, h: seq<nat>)
    requires IsIpv4(h)
    ensures IsIpv4(ParseIpv4(s, sep, h).host)
  {
    hide Octet;
    OctetBounded(IpParse(true, s, h), 0);
    var p0 := Separator(Octet(IpParse(true, s, h), 0), sep);
    OctetBounded(p0, 1);
    var p1 := Separator(Octet(p0, 1), sep);
    OctetBounded(p1, 2);
    OctetBounded(Separator(Octet(p1, 2), sep), 3);
  }

  method ReadOctet(r: Cursor, h: array<nat>, i: nat) returns (ok: bool)
    requires r.Valid() && h.Length == V4_SIZE && i < V4_SIZE
    modifies r, h
    ensures r.Valid()
    ensures IpParse(ok, r.Rest(), h[..]) == Octet(IpParse(true, old(r.Rest()), old(h[..])), i)
  {
    var v := r.ReadInt(10, OCTET_MAX);
    if v.Some? {
      h[i] := v.value;
      ok := true;
    } else {
      ok := false;
    }
  }

  method ReadIpv4(r: Cursor, h: array<nat>, sep: char) returns (ok: bool)
    requires r.Valid() && h.Length == V4_SIZE
    modifies r, h
    ensures r.Valid()
    ensures IpParse(ok, r.Rest(), h[..]) == ParseIpv4(old(r.Rest()), sep, old(h[..]))
  {
    ok := ReadOctet(r, h, 0);
    if !ok { return; }
    ok := r.Lit(sep);
    if !ok { return; }
    ok := ReadOctet(r, h, 1);
    if !ok { return; }
    ok := r.Lit(sep);
    if !ok { return; }
    ok := ReadOctet(r, h, 2);
    if !ok { return; }
    ok := r.Lit(sep);
    if !ok { return; }
    ok := ReadOctet(r, h, 3);
  }

  function Ipv4Text(h: seq<nat>): string
    requires |h| == V4_SIZE
  {
    Print(h[0], 10) + ("." + (Print(h[1], 10) + ("." + (Print(h[2], 10) + ("." + Print(h[3], 10))))))
  }

  lemma OctetRoundTrip(p: IpParse, i: nat, v: nat, tail: string)
    requires p.ok && |p.host| == V4_SIZE && i < V4_SIZE
    requires v <= OCTET_MAX && p.rest == Print(v, 10) + tail
    requires tail == "" || !Matches(tail[0], 10)
    ensures Octet(p, i) == IpParse(true, tail, p.host[i := v])
  {
    PrintRoundTrip(v, 10, OCTET_MAX, tail);
  }

  lemma Append4(a: string, b: string, c: string, d: string, sep: string, tail: string)
    ensures (a + (sep + (b + (sep + (c + (sep + d)))))) + tail
         == a + (sep + (b + (sep + (c + (sep + (d + tail))))))
  {
    Append3(b, c, d, sep, tail);
    var u := b + (sep + (c + (sep + d)));
    assert (a + (sep + u)) + tail == a + (sep + (u + tail));
  }

  lemma Append3(b: string, c: string, d: string, sep: string, tail: string)
    ensures (b + (sep + (c + (sep + d)))) + tail == b + (sep + (c + (sep + (d + tail))))
  {
    var u := c + (sep + d);
    assert (b + (sep + u)) + tail == b + (sep + (u + tail));
    assert u + tail == c + (sep + (d + tail));
  }

  /** Printing and parsing back an IPv4 address is the identity, whatever follows it in the
      text as long as that is not another digit. */
  lemma Ipv4RoundTrip(h: seq<nat>, g: seq<nat>, tail: string)
    requires IsIpv4(h) && |g| == V4_SIZE
    requires tail == "" || !Matches(tail[0], 10)
    ensures ParseIpv4(Ipv4Text(h) + tail, '.', g) == IpParse(true, tail, h)
  {
    hide Print, Octet;
    var t3 := Print(h[3], 10) + tail;
    var t2 := Print(h[2], 10) + ("." + t3);
    var t1 := Print(h[1], 10) + ("." + t2);
    var t0 := Print(h[0], 10) + ("." + t1);
    Append4(Print(h[0], 10), Print(h[1], 10), Print(h[2], 10), Print(h[3], 10), ".", tail);
    OctetRoundTrip(IpParse(true, t0, g), 0, h[0], "." + t1);
    var g1 := g[0 := h[0]];
    OctetRoundTrip(IpParse(true, t1, g1), 1, h[1], "." + t2);
    var g2 := g1[1 := h[1]];
    OctetRoundTrip(IpParse(true, t2, g2), 2, h[2], "." + t3);
    var g3 := g2[2 := h[2]];
    OctetRoundTrip(IpParse(true, t3, g3), 3, h[3], tail);
    assert g3[3 := h[3]] == h;
  }

  // ---------------------------------------------------------------- IPv6, parsing

  /** State of the hextet loop when it ends. `gap` is the number of hextets that precede the
      double colon, or the size of the array when there is none; `ok` is false when the
      parser gives up on the spot. */
  datatype Scan = Scan(ok: bool, rest: string, host: seq<nat>, count: nat, gap: nat)

  /** The hextet loop. It recurs on strictly less input every time. */
  function Hextets(s: string, h: seq<nat>, count: nat, gap: nat): (r: Scan)
    requires |h| == V6_SIZE && count <= V6_SIZE && gap <= V6_SIZE
    requires gap < V6_SIZE ==> gap <= count
    ensures |r.host| == V6_SIZE && r.count <= V6_SIZE && r.gap <= V6_SIZE
    ensures r.gap < V6_SIZE ==> r.gap <= r.count
    decreases |s|
  {
    if count == V6_SIZE || s == "" then Scan(true, s, h, count, gap)
    else match ParseInt(s, 16, HEXTET_MAX)
      case Int(v, rest) =>
        var h1 := h[count := v];
        if StartsWith(rest, ':') then
          Hextets(rest[1..], h1, count + 1, gap)
        else if StartsWith(rest, '.') then
          if count + 1 <= V6_SIZE - 1 then
            var v4 := ParseIpv4(s, '.', [0, 0, 0, 0]);
            if v4.ok then
              var h2 := h1[count := v4.host[0] * 256 + v4.host[1]];
              Scan(true, v4.rest, h2[count + 1 := v4.host[2] * 256 + v4.host[3]], count + 2, gap)
            else
              Scan(false, v4.rest, h1, count, gap)
          else
            Scan(false, rest[1..], h1, count + 1, gap)
        else
          Scan(true, rest, h1, count + 1, gap)
      case NoInt =>
        if gap > count && s[0] == ':' then
          if count > 0 then Hextets(s[1..], h, count, count)
          else if StartsWith(s[1..], ':') then Hextets(s[2..], h, count, count)
          else Scan(true, s[1..], h, count, gap)
        else
          Scan(true, s, h, count, gap)
  }

  /** Whatever is read fits the words of the array. */
  lemma {:induction false} HextetsBounded(s: string, h: seq<nat>, count: nat, gap: nat)
    requires IsIpv6(h) && count <= V6_SIZE && gap <= V6_SIZE
    requires gap < V6_SIZE ==> gap <= count
    ensures IsIpv6(Hextets(s, h, count, gap).host)
    decreases |s|
  {
    hide ParseIpv4, ParseInt;
    if count < V6_SIZE && s != "" {
      match ParseInt(s, 16, HEXTET_MAX)
      case Int(v, rest) =>
        if StartsWith(rest, ':') {
          HextetsBounded(rest[1..], h[count := v], count + 1, gap);
        } else if StartsWith(rest, '.') && count + 1 <= V6_SIZE - 1 {
          var v4 := ParseIpv4(s, '.', [0, 0, 0, 0]).host;
          Ipv4Bounded(s, '.', [0, 0, 0, 0]);
          assert v4[0] <= OCTET_MAX && v4[1] <= OCTET_MAX && v4[2] <= OCTET_MAX && v4[3] <= OCTET_MAX;
        }
      case NoInt =>
        if gap > count && s[0] == ':' {
          if count > 0 {
            HextetsBounded(s[1..], h, count, count);
          } else if StartsWith(s[1..], ':') {
            HextetsBounded(s[2..], h, count, count);
          }
        }
    }
  }

  lemma Ipv6Bounded(s: string, h: seq<nat>)
    requires IsIpv6(h)
    ensures IsIpv6(ParseIpv6(s, h).host)
  {
    hide Hextets;
    HextetsBounded(if StartsWith(s, '[') then s[1..] else s, h, 0, V6_SIZE);
  }

  lemma ScanEnds(s: string, h: seq<nat>, count: nat, gap: nat)
    requires |h| == V6_SIZE && count <= V6_SIZE && gap <= V6_SIZE
    requires gap < V6_SIZE ==> gap <= count
    requires count == V6_SIZE || s == ""
    ensures Hextets(s, h, count, gap) == Scan(true, s, h, count, gap)
  {
  }

  /** What the double colon stands for: as many zeros as are missing. */
  function Expand(h: seq<nat>, count: nat, gap: nat): seq<nat>
    requires gap <= count <= |h|
  {
    h[..gap] + seq(|h| - count, _ => 0) + h[gap..count]
  }

  function CloseBracket(p: IpParse, bracketed: bool): IpParse {
    if bracketed then Separator(p, ']') else p
  }

  function FinishParse(r: Scan, bracketed: bool): (p: IpParse)
    requires |r.host| == V6_SIZE && r.count <= V6_SIZE
    requires r.gap < V6_SIZE ==> r.gap <= r.count
    ensures |p.host| == V6_SIZE
  {
    if !r.ok then
      IpParse(false, r.rest, r.host)
    else if r.gap < V6_SIZE then
      if r.count > V6_SIZE - 1 then IpParse(false, r.rest, r.host)
      else CloseBracket(IpParse(true, r.rest, Expand(r.host, r.count, r.gap)), bracketed)
    else if r.count < V6_SIZE then
      IpParse(false, r.rest, r.host)
    else
      CloseBracket(IpParse(true, r.rest, r.host), bracketed)
  }

  function ParseIpv6(s: string, h: seq<nat>): (p: IpParse)
    requires |h| == V6_SIZE
    ensures |p.host| == V6_SIZE
  {
    var bracketed := StartsWith(s, '[');
    FinishParse(Hextets(if bracketed then s[1..] else s, h, 0, V6_SIZE), bracketed)
  }

  /** Makes room for the zeros in place. Both loops run from the back of the array, the first
      one over overlapping stretches. */
  method ExpandInPlace(h: array<nat>, count: nat, gap: nat)
    requires gap <= count <= h.Length
    modifies h
    ensures h[..] == Expand(old(h[..]), count, gap)
  {
    ghost var was := h[..];
    var n := h.Length;
    var zeros := n - count;
    var back := ShiftBack(h, count, gap);
    ghost var shifted := h[..];
    while zeros > 0
      invariant 0 <= zeros <= n - count
      invariant back == gap + zeros - 1
      invariant forall k :: 0 <= k < n ==>
        h[k] == if gap + zeros <= k < gap + (n - count) then 0 else shifted[k]
    {
      h[back] := 0;
      back := back - 1;
      zeros := zeros - 1;
    }
    assert h[..gap] == was[..gap];
    assert h[gap..gap + (n - count)] == seq(n - count, _ => 0);
    assert h[gap + (n - count)..] == was[gap..count];
    assert h[..] == h[..gap] + h[gap..gap + (n - count)] + h[gap + (n - count)..];
  }

  /** Moves the hextets after the double colon to the end of the array. */
  method ShiftBack(h: array<nat>, count: nat, gap: nat) returns (back: int)
    requires gap <= count <= h.Length
    modifies h
    ensures back == gap + (h.Length - count) - 1
    ensures h[..gap] == old(h[..gap])
    ensures h[gap + (h.Length - count)..] == old(h[gap..count])
  {
    var n := h.Length;
    var zeros := n - count;
    var toMove := count - gap;
    ghost var was := h[..];
    var j := 0;
    back := n - 1;
    while j < toMove
      invariant 0 <= j <= toMove && back == n - 1 - j
      invariant forall k :: 0 <= k < count - j ==> h[k] == was[k]
      invariant forall k :: n - j <= k < n ==> h[k] == was[k - zeros]
    {
      h[back] := h[n - 1 - zeros - j];
      back := back - 1;
      j := j + 1;
    }
  }

  /** How one round of the hextet loop ends: it goes on, breaks out, or gives up. */
  datatype Next = Again | Leave | Reject

  /** What a round promises: it brings the scan of `s` one step further. */
  ghost predicate Advances(whole: Scan, next: Next, rest: string, h: seq<nat>, count: nat, gap: nat)
    requires |h| == V6_SIZE
  {
    && count <= V6_SIZE && gap <= V6_SIZE && (gap < V6_SIZE ==> gap <= count)
    && match next
       case Again => whole == Hextets(rest, h, count, gap)
       case Leave => whole == Scan(true, rest, h, count, gap)
       case Reject => whole == Scan(false, rest, h, count, gap)
  }

  /** An IPv4 suffix takes two hextets; the cursor goes back to where its first number
      starts. */
  method ReadIpv4Suffix(r: Cursor, h: array<nat>, cur: nat, count: nat, gap: nat) returns (next: Next, n: nat)
    requires r.Valid() && h.Length == V6_SIZE && cur <= |r.text|
    requires count < V6_SIZE && gap <= V6_SIZE && (gap < V6_SIZE ==> gap <= count)
    modifies r, h
    ensures r.Valid() && next != Again && n <= V6_SIZE
    ensures
      if count + 1 > V6_SIZE - 1 then
        next == Reject && n == count + 1 && r.it == old(r.it) && h[..] == old(h[..])
      else
        var v4 := ParseIpv4(r.text[cur..], '.', [0, 0, 0, 0]);
        && r.Rest() == v4.rest
        && if v4.ok then
             && next == Leave && n == count + 2
             && h[..] == old(h[..])[count := v4.host[0] * 256 + v4.host[1]]
                                   [count + 1 := v4.host[2] * 256 + v4.host[3]]
           else next == Reject && n == count && h[..] == old(h[..])
  {
    hide ParseIpv4;
    if count + 1 <= V6_SIZE - 1 {
      r.it := cur;
      var v4 := new nat[V4_SIZE](_ => 0);
      assert v4[..] == [0, 0, 0, 0];
      var ok := ReadIpv4(r, v4, '.');
      if ok {
        h[count] := v4[0] * 256 + v4[1];
        h[count + 1] := v4[2] * 256 + v4[3];
        return Leave, count + 2;
      }
      return Reject, count;
    }
    return Reject, count + 1;
  }

  /** Where there is no number, only the `::` that has not been seen yet may come. */
  method ReadGap(r: Cursor, ghost h: seq<nat>, count: nat, gap: nat) returns (next: Next, g: nat)
    requires r.Valid() && |h| == V6_SIZE && r.Rest() != ""
    requires count < V6_SIZE && gap <= V6_SIZE && (gap < V6_SIZE ==> gap <= count)
    requires ParseInt(r.Rest(), 16, HEXTET_MAX) == NoInt
    modifies r
    ensures r.Valid()
    ensures Advances(Hextets(old(r.Rest()), h, count, gap), next, r.Rest(), h, count, g)
    ensures next == Again ==> r.it > old(r.it)
  {
    hide ParseIpv4, ParseInt;
    g := gap;
    if gap > count {
      var colon := r.Lit(':');
      if colon {
        var second := count > 0;
        if !second {
          second := r.Lit(':');
        }
        if second {
          return Again, count;
        }
      }
    }
    return Leave, g;
  }

  lemma HextetsColon(s: string, h: seq<nat>, count: nat, gap: nat, v: nat, rest: string)
    requires |h| == V6_SIZE && count < V6_SIZE && gap <= V6_SIZE && (gap < V6_SIZE ==> gap <= count)
    requires s != "" && ParseInt(s, 16, HEXTET_MAX) == Int(v, rest) && StartsWith(rest, ':')
    ensures Hextets(s, h, count, gap) == Hextets(rest[1..], h[count := v], count + 1, gap)
  {
    hide ParseIpv4, ParseInt;
  }

  lemma HextetsDot(s: string, h: seq<nat>, count: nat, gap: nat, v: nat, rest: string)
    requires |h| == V6_SIZE && count < V6_SIZE && gap <= V6_SIZE && (gap < V6_SIZE ==> gap <= count)
    requires s != "" && ParseInt(s, 16, HEXTET_MAX) == Int(v, rest) && StartsWith(rest, '.')
    ensures var scan, v4 := Hextets(s, h, count, gap), ParseIpv4(s, '.', [0, 0, 0, 0]);
            if count + 1 > V6_SIZE - 1 then scan == Scan(false, rest[1..], h[count := v], count + 1, gap)
            else if !v4.ok then scan == Scan(false, v4.rest, h[count := v], count, gap)
            else scan == Scan(true, v4.rest, h[count := v4.host[0] * 256 + v4.host[1]]
                                              [count + 1 := v4.host[2] * 256 + v4.host[3]], count + 2, gap)
  {
    hide ParseIpv4, ParseInt;
  }

  lemma HextetsEnd(s: string, h: seq<nat>, count: nat, gap: nat, v: nat, rest: string)
    requires |h| == V6_SIZE && count < V6_SIZE && gap <= V6_SIZE && (gap < V6_SIZE ==> gap <= count)
    requires s != "" && ParseInt(s, 16, HEXTET_MAX) == Int(v, rest)
    requires !StartsWith(rest, ':') && !StartsWith(rest, '.')
    ensures Hextets(s, h, count, gap) == Scan(true, rest, h[count := v], count + 1, gap)
  {
    hide ParseIpv4, ParseInt;
  }

  lemma SetTwice(h: seq<nat>, i: nat, v: nat, w: nat)
    requires i < |h|
    ensures h[i := v][i := w] == h[i := w]
  {
  }

  /** What may come behind a hextet, which has been written already. */
  method AfterHextet(r: Cursor, h: array<nat>, cur: nat, count: nat, gap: nat, ghost h0: seq<nat>, ghost v: nat)
    returns (next: Next, n: nat)
    requires r.Valid() && h.Length == |h0| == V6_SIZE && cur < |r.text|
    requires count < V6_SIZE && gap <= V6_SIZE && (gap < V6_SIZE ==> gap <= count)
    requires ParseInt(r.text[cur..], 16, HEXTET_MAX) == Int(v, r.Rest())
    requires h[..] == h0[count := v]
    modifies r, h
    ensures r.Valid()
    ensures Advances(Hextets(r.text[cur..], h0, count, gap), next, r.Rest(), h[..], n, gap)
    ensures next == Again ==> r.it > old(r.it)
  {
    hide ParseIpv4, ParseInt, Hextets;
    ghost var s, rest := r.text[cur..], r.Rest();
    var colon := r.Lit(':');
    if colon {
      HextetsColon(s, h0, count, gap, v, rest);
      return Again, count + 1;
    }
    var dot := r.Lit('.');
    if dot {
      HextetsDot(s, h0, count, gap, v, rest);
      ghost var v4 := ParseIpv4(s, '.', [0, 0, 0, 0]);
      SetTwice(h0, count, v, v4.host[0] * 256 + v4.host[1]);
      next, n := ReadIpv4Suffix(r, h, cur, count, gap);
      return;
    }
    HextetsEnd(s, h0, count, gap, v, rest);
    return Leave, count + 1;
  }

  /** One round of the loop. */
  method ReadGroup(r: Cursor, h: array<nat>, count: nat, gap: nat) returns (next: Next, n: nat, g: nat)
    requires r.Valid() && h.Length == V6_SIZE && r.Rest() != ""
    requires count < V6_SIZE && gap <= V6_SIZE && (gap < V6_SIZE ==> gap <= count)
    modifies r, h
    ensures r.Valid()
    ensures Advances(Hextets(old(r.Rest()), old(h[..]), count, gap), next, r.Rest(), h[..], n, g)
    ensures next == Again ==> r.it > old(r.it)
  {
    hide ParseIpv4, ParseInt, Hextets;
    var cur := r.it;
    ghost var h0 := h[..];
    var v := r.ReadInt(16, HEXTET_MAX);
    g := gap;
    n := count;
    if v == None {
      next, g := ReadGap(r, h0, count, gap);
      return;
    }
    h[count] := v.value;
    next, n := AfterHextet(r, h, cur, count, gap, h0, v.value);
  }

  /** `parse_ip` for IPv6: one cursor, one array, filled and then expanded in place. */
  method ReadIpv6(r: Cursor, h: array<nat>) returns (ok: bool)
    requires r.Valid() && h.Length == V6_SIZE
    modifies r, h
    ensures r.Valid()
    ensures IpParse(ok, r.Rest(), h[..]) == ParseIpv6(old(r.Rest()), old(h[..]))
  {
    hide Hextets;
    var bracketed := r.Lit('[');
    var count: nat, gap: nat := 0, V6_SIZE;
    ghost var whole := Hextets(r.Rest(), h[..], count, gap);
    var next := Again;
    var atEnd := r.Eol();
    while next == Again && count < V6_SIZE && !atEnd
      invariant r.Valid() && atEnd == (r.Rest() == "")
      invariant Advances(whole, next, r.Rest(), h[..], count, gap)
      decreases if next == Again then |r.text| - r.it + 1 else 0
    {
      next, count, gap := ReadGroup(r, h, count, gap);
      atEnd := r.Eol();
    }
    if next == Again {
      ScanEnds(r.Rest(), h[..], count, gap);
    }
    ok := false;
    if next != Reject {
      ok := FinishIpv6(r, h, count, gap, bracketed);
    }
  }

  method FinishIpv6(r: Cursor, h: array<nat>, count: nat, gap: nat, bracketed: bool) returns (ok: bool)
    requires r.Valid() && h.Length == V6_SIZE
    requires count <= V6_SIZE && gap <= V6_SIZE && (gap < V6_SIZE ==> gap <= count)
    modifies r, h
    ensures r.Valid()
    ensures IpParse(ok, r.Rest(), h[..])
         == FinishParse(Scan(true, old(r.Rest()), old(h[..]), count, gap), bracketed)
  {
    if gap < V6_SIZE {
      if count > V6_SIZE - 1 {
        return false;
      }
      ExpandInPlace(h, count, gap);
    } else if count < V6_SIZE {
      return false;
    }
    ok := true;
    if bracketed {
      ok := r.Lit(']');
    }
  }
}
