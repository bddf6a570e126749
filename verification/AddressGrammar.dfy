/** Which texts are addresses: `parse_ip` of hostaddress.hpp against spelled-out addresses. */
module AddressGrammar {
  import opened Parser
  import opened Numerals
  import opened HostAddress

  // ---------------------------------------------------------------- IPv4

  predicate IsOctet(t: string, v: nat) {
    t != "" && v <= 255 && Spells(t, v, 10)
  }

  predicate SpellsIpv4(o: seq<string>, h: seq<nat>) {
    |o| == |h| == 4 && forall i :: 0 <= i < 4 ==> IsOctet(o[i], h[i])
  }

  function Dotted(o: seq<string>, sep: char): string
    requires |o| == 4
  {
    o[0] + ([sep] + (o[1] + ([sep] + (o[2] + ([sep] + o[3])))))
  }

  lemma OctetReads(p: IpParse, i: nat, t: string, v: nat, tail: string)
    requires p.ok && |p.host| == V4_SIZE && i < V4_SIZE
    requires IsOctet(t, v) && p.rest == t + tail && NoDigit(tail, 10)
    ensures Octet(p, i) == IpParse(true, tail, p.host[i := v])
  {
    ReadsNumeral(t, v, tail, 10, OCTET_MAX);
  }

  lemma SeparatorStops(sep: char, more: string)
    requires sep == '.' || sep == ','
    ensures NoDigit([sep] + more, 10) && ([sep] + more)[1..] == more
  {
    MatchesIsDigit(sep, 10);
    assert ([sep] + more)[0] == sep;
  }

  lemma DottedThen(o: seq<string>, sep: char, tail: string)
    requires |o| == 4
    ensures Dotted(o, sep) + tail
         == o[0] + ([sep] + (o[1] + ([sep] + (o[2] + ([sep] + (o[3] + tail))))))
  {
    Append4(o[0], o[1], o[2], o[3], [sep], tail);
  }

  /** Four numerals for octets are read, up to where the digits end. */
  lemma ReadsIpv4(o: seq<string>, h: seq<nat>, sep: char, tail: string, g: seq<nat>)
    requires sep == '.' || sep == ','
    requires SpellsIpv4(o, h) && |g| == V4_SIZE && NoDigit(tail, 10)
    ensures ParseIpv4(Dotted(o, sep) + tail, sep, g) == IpParse(true, tail, h)
  {
    hide Octet, IsOctet, NoDigit;
    var t3 := o[3] + tail;
    var t2 := o[2] + ([sep] + t3);
    var t1 := o[1] + ([sep] + t2);
    var t0 := o[0] + ([sep] + t1);
    DottedThen(o, sep, tail);
    SeparatorStops(sep, t1);
    SeparatorStops(sep, t2);
    SeparatorStops(sep, t3);
    OctetReads(IpParse(true, t0, g), 0, o[0], h[0], [sep] + t1);
    var g1 := g[0 := h[0]];
    OctetReads(IpParse(true, t1, g1), 1, o[1], h[1], [sep] + t2);
    var g2 := g1[1 := h[1]];
    OctetReads(IpParse(true, t2, g2), 2, o[2], h[2], [sep] + t3);
    var g3 := g2[2 := h[2]];
    OctetReads(IpParse(true, t3, g3), 3, o[3], h[3], tail);
    assert g3[3 := h[3]] == h;
  }

  lemma OctetRead(p: IpParse, i: nat) returns (t: string)
    requires |p.host| == V4_SIZE && i < V4_SIZE && Octet(p, i).ok
    ensures var q := Octet(p, i);
            && p.ok && p.rest == t + q.rest && NoDigit(q.rest, 10)
            && IsOctet(t, q.host[i]) && q.host == p.host[i := q.host[i]]
  {
    t := NumeralRead(p.rest, 10, OCTET_MAX);
  }

  lemma SeparatorRead(p: IpParse, sep: char)
    requires Separator(p, sep).ok
    ensures p.ok && p.rest == [sep] + Separator(p, sep).rest && Separator(p, sep).host == p.host
  {
  }

  /** And nothing else is. */
  lemma OnlyIpv4(s: string, sep: char, g: seq<nat>) returns (o: seq<string>)
    requires |g| == V4_SIZE && ParseIpv4(s, sep, g).ok
    ensures var p := ParseIpv4(s, sep, g);
            SpellsIpv4(o, p.host) && s == Dotted(o, sep) + p.rest && NoDigit(p.rest, 10)
  {
    hide Octet, IsOctet, NoDigit;
    var q0 := Octet(IpParse(true, s, g), 0);
    var p0 := Separator(q0, sep);
    var q1 := Octet(p0, 1);
    var p1 := Separator(q1, sep);
    var q2 := Octet(p1, 2);
    var p2 := Separator(q2, sep);
    var o3 := OctetRead(p2, 3);
    SeparatorRead(q2, sep);
    var o2 := OctetRead(p1, 2);
    SeparatorRead(q1, sep);
    var o1 := OctetRead(p0, 1);
    SeparatorRead(q0, sep);
    var o0 := OctetRead(IpParse(true, s, g), 0);
    o := [o0, o1, o2, o3];
    DottedThen(o, sep, Octet(p2, 3).rest);
  }

  // ---------------------------------------------------------------- IPv6

  predicate IsHextet(t: string, v: nat) {
    t != "" && v <= 0xffff && Spells(t, v, 16)
  }

  predicate AreHextets(ws: seq<string>, vs: seq<nat>) {
    |ws| == |vs| && forall i :: 0 <= i < |ws| ==> IsHextet(ws[i], vs[i])
  }

  /** How an address may end: in a hextet, in an IPv4 address, or behind a colon. */
  datatype Ending = Hextet(t: string) | Suffix(o: seq<string>) | Nothing {
    function Size(): nat {
      match this
      case Hextet(_) => 1
      case Suffix(_) => 2
      case Nothing => 0
    }

    predicate Valid() {
      Suffix? ==> |o| == 4
    }

    function Text(): string
      requires Valid()
    {
      match this
      case Hextet(t) => t
      case Suffix(o) => Dotted(o, '.')
      case Nothing => ""
    }
  }

  /** The hextets in front of a double colon, those behind it, and the ending; every hextet but the
      one that ends the address has a colon behind it. */
  datatype Spelling = Spelling(front: seq<string>, gap: bool, back: seq<string>, ending: Ending) {
    function Count(): nat {
      |front| + |back| + ending.Size()
    }

    /** Eight hextets, or fewer with a double colon for at least one. */
    predicate Valid() {
      && ending.Valid()
      && if gap then Count() <= 7 else back == [] && Count() == 8
    }

    function Text(): string
      requires Valid()
    {
      Colons(front) + (if gap then (if front == [] then "::" else ":") + Colons(back) else "") + ending.Text()
    }
  }

  function Colons(ws: seq<string>): string {
    if ws == [] then "" else ws[0] + ":" + Colons(ws[1..])
  }

  predicate EndingMeans(e: Ending, h: seq<nat>)
    requires e.Valid() && |h| == 8
  {
    match e
    case Hextet(t) => IsHextet(t, h[7])
    case Suffix(o) => SpellsIpv4(o, [h[6] / 256, h[6] % 256, h[7] / 256, h[7] % 256])
    case Nothing => true
  }

  /** The address that a spelling stands for: the double colon stands for the missing zeros. */
  predicate SpellsIpv6(sp: Spelling, h: seq<nat>) {
    && sp.Valid() && |h| == 8
    && var n, m := |sp.front|, |sp.back| + sp.ending.Size();
       && AreHextets(sp.front, h[..n])
       && (forall i :: n <= i < 8 - m ==> h[i] == 0)
       && AreHextets(sp.back, h[8 - m..8 - m + |sp.back|])
       && EndingMeans(sp.ending, h)
  }

  /** Where reading the address ends. Behind a colon that ends it nothing may follow that could be
      another hextet, unless there are eight already. */
  predicate Ends(sp: Spelling, tail: string)
  {
    match sp.ending
    case Hextet(_) => NoDigit(tail, 16) && !StartsWith(tail, ':') && !StartsWith(tail, '.')
    case Suffix(_) => NoDigit(tail, 10)
    case Nothing => sp.gap ==> ParseInt(tail, 16, HEXTET_MAX) == NoInt
  }

  // ---------------------------------------------------------------- spelled addresses are read

  /** The array with `vs` written from `count` on. */
  function Put(a: seq<nat>, count: nat, vs: seq<nat>): (r: seq<nat>)
    requires count + |vs| <= |a|
    ensures |r| == |a|
  {
    a[..count] + vs + a[count + |vs|..]
  }

  lemma PutOne(a: seq<nat>, count: nat, vs: seq<nat>)
    requires vs != [] && count + |vs| <= |a|
    ensures Put(a, count, vs) == Put(a[count := vs[0]], count + 1, vs[1..])
  {
  }

  lemma PutNone(a: seq<nat>, count: nat)
    requires count <= |a|
    ensures Put(a, count, []) == a
  {
  }

  lemma HextetReads(t: string, v: nat, more: string, a: seq<nat>, count: nat, gap: nat)
    requires IsHextet(t, v) && |a| == V6_SIZE
    requires count < V6_SIZE && gap <= V6_SIZE && (gap < V6_SIZE ==> gap <= count)
    ensures Hextets(t + ":" + more, a, count, gap) == Hextets(more, a[count := v], count + 1, gap)
  {
    hide Hextets, ParseInt;
    var s := t + ":" + more;
    assert s == t + (":" + more);
    ColonIsNoDigit(more);
    ReadsNumeral(t, v, ":" + more, 16, HEXTET_MAX);
    HextetsColon(s, a, count, gap, v, ":" + more);
    assert (":" + more)[1..] == more;
  }

  lemma ColonIsNoDigit(more: string)
    ensures NoDigit(":" + more, 16) && NoDigit("." + more, 16) && NoDigit("]" + more, 16)
    ensures NoDigit("." + more, 10) && NoDigit("]" + more, 10)
  {
    MatchesIsDigit(':', 16);
    MatchesIsDigit('.', 16);
    MatchesIsDigit(']', 16);
    MatchesIsDigit('.', 10);
    MatchesIsDigit(']', 10);
  }

  lemma {:induction false} HextetsRead(ws: seq<string>, vs: seq<nat>, more: string, a: seq<nat>, count: nat, gap: nat)
    requires AreHextets(ws, vs) && |a| == V6_SIZE && count + |ws| <= V6_SIZE
    requires gap <= V6_SIZE && (gap < V6_SIZE ==> gap <= count)
    ensures Hextets(Colons(ws) + more, a, count, gap) == Hextets(more, Put(a, count, vs), count + |ws|, gap)
    decreases |ws|
  {
    hide Hextets, IsHextet, Put;
    if ws == [] {
      PutNone(a, count);
      assert Colons(ws) + more == more;
    } else {
      var rest := Colons(ws[1..]) + more;
      assert Colons(ws) + more == ws[0] + ":" + rest;
      HextetReads(ws[0], vs[0], rest, a, count, gap);
      HextetsRead(ws[1..], vs[1..], more, a[count := vs[0]], count + 1, gap);
      PutOne(a, count, vs);
    }
  }

  /** The words that an ending writes. */
  function EndingWords(e: Ending, h: seq<nat>): (r: seq<nat>)
    requires |h| == 8
    ensures |r| == e.Size()
  {
    h[8 - e.Size()..]
  }

  lemma EndingReads(sp: Spelling, h: seq<nat>, tail: string, a: seq<nat>, count: nat, gap: nat)
    requires sp.ending.Valid() && |h| == 8 && EndingMeans(sp.ending, h) && Ends(sp, tail)
    requires |a| == V6_SIZE && count + sp.ending.Size() <= V6_SIZE
    requires gap <= V6_SIZE && (gap < V6_SIZE ==> gap <= count)
    requires sp.ending == Nothing ==> if sp.gap then gap < V6_SIZE else count == V6_SIZE
    ensures Hextets(sp.ending.Text() + tail, a, count, gap)
         == Scan(true, tail, Put(a, count, EndingWords(sp.ending, h)), count + sp.ending.Size(), gap)
  {
    hide Hextets, IsHextet, SpellsIpv4, NoDigit, ParseInt, Put;
    match sp.ending
    case Hextet(t) =>
      assert EndingWords(sp.ending, h) == [h[7]];
      HextetEnds(t, h[7], tail, a, count, gap);
    case Suffix(o) =>
      assert EndingWords(sp.ending, h) == [h[6], h[7]];
      SuffixEnds(o, h[6], h[7], tail, a, count, gap);
    case Nothing =>
      assert EndingWords(sp.ending, h) == [];
      assert "" + tail == tail;
      PutNone(a, count);
      NothingEnds(tail, a, count, gap);
  }

  lemma NothingEnds(tail: string, a: seq<nat>, count: nat, gap: nat)
    requires |a| == V6_SIZE && count <= V6_SIZE && gap <= V6_SIZE && (gap < V6_SIZE ==> gap <= count)
    requires count < V6_SIZE && tail != "" ==> gap < V6_SIZE && ParseInt(tail, 16, HEXTET_MAX) == NoInt
    ensures Hextets(tail, a, count, gap) == Scan(true, tail, a, count, gap)
  {
    hide ParseInt;
  }

  lemma HextetEnds(t: string, v: nat, tail: string, a: seq<nat>, count: nat, gap: nat)
    requires IsHextet(t, v) && NoDigit(tail, 16) && !StartsWith(tail, ':') && !StartsWith(tail, '.')
    requires |a| == V6_SIZE && count < V6_SIZE && gap <= V6_SIZE && (gap < V6_SIZE ==> gap <= count)
    ensures Hextets(t + tail, a, count, gap) == Scan(true, tail, Put(a, count, [v]), count + 1, gap)
  {
    hide Hextets, ParseInt;
    ReadsNumeral(t, v, tail, 16, HEXTET_MAX);
    HextetsEnd(t + tail, a, count, gap, v, tail);
    assert Put(a, count, [v]) == a[count := v];
  }

  /** A decimal octet is a hexadecimal numeral too, for a number that fits a hextet. */
  lemma {:induction false} OctetIsHextet(t: string, v: nat) returns (w: nat)
    requires Spells(t, v, 10) && v <= 255
    ensures w <= 0x299 && Spells(t, w, 16)
    ensures v <= 25 ==> w <= 0x29
    ensures v <= 2 ==> w == v
    decreases |t|
  {
    if t == "" {
      w := 0;
    } else {
      hide IsDigit;
      var front := OctetIsHextet(t[..|t| - 1], v / 10);
      w := front * 16 + v % 10;
      assert w % 16 == v % 10 && w / 16 == front;
    }
  }

  lemma SuffixEnds(o: seq<string>, v: nat, w: nat, tail: string, a: seq<nat>, count: nat, gap: nat)
    requires SpellsIpv4(o, [v / 256, v % 256, w / 256, w % 256]) && NoDigit(tail, 10)
    requires |a| == V6_SIZE && count + 2 <= V6_SIZE && gap <= V6_SIZE && (gap < V6_SIZE ==> gap <= count)
    ensures Hextets(Dotted(o, '.') + tail, a, count, gap) == Scan(true, tail, Put(a, count, [v, w]), count + 2, gap)
  {
    hide Hextets, ParseInt, ParseIpv4, NoDigit, Spells;
    var s, h := Dotted(o, '.') + tail, [v / 256, v % 256, w / 256, w % 256];
    ReadsIpv4(o, h, '.', tail, [0, 0, 0, 0]);
    var rest := "." + (o[1] + ("." + (o[2] + ("." + (o[3] + tail)))));
    DottedThen(o, '.', tail);
    assert s == o[0] + rest;
    assert IsOctet(o[0], h[0]);
    var x := OctetIsHextet(o[0], h[0]);
    ColonIsNoDigit(o[1] + ("." + (o[2] + ("." + (o[3] + tail)))));
    ReadsNumeral(o[0], x, rest, 16, HEXTET_MAX);
    HextetsDot(s, a, count, gap, x, rest);
    assert h[0] * 256 + h[1] == v && h[2] * 256 + h[3] == w;
    assert Put(a, count, [v, w]) == a[count := v][count + 1 := w];
  }

  /** The double colon, behind `count` hextets. */
  lemma GapReads(more: string, a: seq<nat>, count: nat)
    requires |a| == V6_SIZE && count < V6_SIZE
    ensures Hextets((if count == 0 then "::" else ":") + more, a, count, V6_SIZE) == Hextets(more, a, count, count)
  {
    var s := (if count == 0 then "::" else ":") + more;
    assert s[0] == ':' && !Matches(':', 16);
    assert ParseInt(s, 16, HEXTET_MAX) == NoInt;
    if count == 0 {
      assert s[1..] == ":" + more && s[2..] == more;
    } else {
      assert s[1..] == more;
    }
  }

  /** What the loop makes of a whole spelling. */
  lemma SpellingScans(sp: Spelling, h: seq<nat>, tail: string, a: seq<nat>) returns (b: seq<nat>)
    requires SpellsIpv6(sp, h) && Ends(sp, tail) && |a| == V6_SIZE
    ensures |b| == V6_SIZE
    ensures Hextets(sp.Text() + tail, a, 0, V6_SIZE)
         == Scan(true, tail, b, sp.Count(), if sp.gap then |sp.front| else V6_SIZE)
    ensures b == Put(Put(a, 0, h[..|sp.front|]), |sp.front|, h[8 - (sp.Count() - |sp.front|)..])
  {
    hide Hextets, AreHextets, EndingMeans, Ends, Put, Colons;
    var n, m := |sp.front|, |sp.back| + sp.ending.Size();
    var e := sp.ending.Text() + tail;
    var a1 := Put(a, 0, h[..n]);
    var ws := EndingWords(sp.ending, h);
    if sp.gap {
      var vs := h[8 - m..8 - m + |sp.back|];
      var more := (if n == 0 then "::" else ":") + (Colons(sp.back) + e);
      GapText(sp, tail);
      HextetsRead(sp.front, h[..n], more, a, 0, V6_SIZE);
      GapReads(Colons(sp.back) + e, a1, n);
      HextetsRead(sp.back, vs, e, a1, n, n);
      var a2 := Put(a1, n, vs);
      EndingReads(sp, h, tail, a2, n + |sp.back|, n);
      b := Put(a2, n + |sp.back|, ws);
      PutsMeet(a1, n, vs, ws);
      assert vs + ws == h[8 - m..];
    } else {
      PlainText(sp, tail);
      HextetsRead(sp.front, h[..n], e, a, 0, V6_SIZE);
      EndingReads(sp, h, tail, a1, n, V6_SIZE);
      b := Put(a1, n, ws);
    }
  }

  lemma GapText(sp: Spelling, tail: string)
    requires sp.Valid() && sp.gap
    ensures sp.Text() + tail
         == Colons(sp.front) + ((if |sp.front| == 0 then "::" else ":") + (Colons(sp.back) + (sp.ending.Text() + tail)))
  {
    hide Colons;
  }

  lemma PlainText(sp: Spelling, tail: string)
    requires sp.Valid() && !sp.gap
    ensures sp.Text() + tail == Colons(sp.front) + (sp.ending.Text() + tail)
  {
    hide Colons;
    assert Colons(sp.front) + "" == Colons(sp.front);
  }

  lemma PutsMeet(a: seq<nat>, n: nat, vs: seq<nat>, ws: seq<nat>)
    requires n + |vs| + |ws| <= |a|
    ensures Put(Put(a, n, vs), n + |vs|, ws) == Put(a, n, vs + ws)
  {
  }

  /** Every spelling of an address is read as that address, up to where it ends, whatever was in
      the array; and so is one in brackets, whatever follows. */
  lemma ReadsIpv6(sp: Spelling, h: seq<nat>, tail: string, a: seq<nat>)
    requires SpellsIpv6(sp, h) && |a| == V6_SIZE
    ensures Ends(sp, tail) ==> ParseIpv6(sp.Text() + tail, a) == IpParse(true, tail, h)
    ensures ParseIpv6("[" + sp.Text() + "]" + tail, a) == IpParse(true, tail, h)
  {
    hide Hextets, Ends;
    if Ends(sp, tail) {
      StartsPlain(sp, h, tail);
      var b := SpellingScans(sp, h, tail, a);
      Expanded(sp, h, a, b);
    }
    var s := "[" + sp.Text() + "]" + tail;
    assert s[1..] == sp.Text() + ("]" + tail);
    BracketEnds(sp, tail);
    var b := SpellingScans(sp, h, "]" + tail, a);
    Expanded(sp, h, a, b);
    assert ("]" + tail)[1..] == tail;
  }

  lemma BracketEnds(sp: Spelling, tail: string)
    ensures Ends(sp, "]" + tail)
  {
    ColonIsNoDigit(tail);
    assert !Matches(']', 16);
  }

  lemma StartsPlain(sp: Spelling, h: seq<nat>, tail: string)
    requires SpellsIpv6(sp, h)
    ensures !StartsWith(sp.Text() + tail, '[')
  {
    hide Spells;
    if sp.front != [] {
      assert IsHextet(sp.front[0], h[..|sp.front|][0]);
      FirstOfNumeral(sp.front[0], h[0], 16);
      assert (sp.Text() + tail)[0] == sp.front[0][0];
    }
  }

  lemma {:induction false} FirstOfNumeral(t: string, v: nat, base: nat)
    requires base == 10 || base == 16
    requires t != "" && Spells(t, v, base)
    ensures Matches(t[0], base)
  {
    ValueIsSpelled(t, v, base);
  }

  lemma Expanded(sp: Spelling, h: seq<nat>, a: seq<nat>, b: seq<nat>)
    requires SpellsIpv6(sp, h) && |a| == V6_SIZE
    requires b == Put(Put(a, 0, h[..|sp.front|]), |sp.front|, h[8 - (sp.Count() - |sp.front|)..])
    ensures |b| == V6_SIZE
    ensures sp.gap ==> Expand(b, sp.Count(), |sp.front|) == h
    ensures !sp.gap ==> b == h
  {
    hide AreHextets, EndingMeans;
    var n, m := |sp.front|, sp.Count() - |sp.front|;
    assert b[..n] == h[..n] && b[n..n + m] == h[8 - m..];
    assert h == h[..n] + h[n..8 - m] + h[8 - m..];
    if sp.gap {
      assert h[n..8 - m] == seq(8 - sp.Count(), _ => 0);
    } else {
      assert b == b[..n] + b[n..];
    }
  }

  // ---------------------------------------------------------------- nothing else is

  /** What the loop has gone over since it had `count` hextets: words with colons behind them, and
      an ending. */
  predicate Covers(s: string, r: Scan, count: nat, ws: seq<string>, e: Ending)
    requires e.Valid() && |r.host| == V6_SIZE
  {
    && count + |ws| + e.Size() == r.count <= V6_SIZE
    && s == Colons(ws) + (e.Text() + r.rest)
    && AreHextets(ws, r.host[count..count + |ws|])
    && match e
       case Hextet(t) =>
         IsHextet(t, r.host[r.count - 1]) && NoDigit(r.rest, 16) && !StartsWith(r.rest, ':') && !StartsWith(r.rest, '.')
       case Suffix(o) =>
         && SpellsIpv4(o, [r.host[r.count - 2] / 256, r.host[r.count - 2] % 256,
                           r.host[r.count - 1] / 256, r.host[r.count - 1] % 256])
         && NoDigit(r.rest, 10)
       case Nothing => r.count == V6_SIZE || ParseInt(r.rest, 16, HEXTET_MAX) == NoInt
  }

  lemma {:induction false} HextetsKeep(s: string, a: seq<nat>, count: nat, gap: nat)
    requires |a| == V6_SIZE && count <= V6_SIZE && gap <= V6_SIZE && (gap < V6_SIZE ==> gap <= count)
    ensures var r := Hextets(s, a, count, gap);
            && r.host[..count] == a[..count] && (r.ok ==> r.count >= count)
            && (gap < V6_SIZE ==> r.gap == gap) && (r.ok && r.gap < V6_SIZE && gap == V6_SIZE ==> r.gap >= count)
    decreases |s|
  {
    hide ParseInt, ParseIpv4;
    if count < V6_SIZE && s != "" {
      match ParseInt(s, 16, HEXTET_MAX)
      case Int(v, rest) =>
        if StartsWith(rest, ':') {
          HextetsKeep(rest[1..], a[count := v], count + 1, gap);
          SliceKept(Hextets(s, a, count, gap).host, a, count, v);
        }
      case NoInt =>
        if gap > count && s[0] == ':' {
          if count > 0 {
            HextetsKeep(s[1..], a, count, count);
          } else if StartsWith(s[1..], ':') {
            HextetsKeep(s[2..], a, count, count);
          }
        }
    }
  }

  lemma SliceKept(h: seq<nat>, a: seq<nat>, count: nat, v: nat)
    requires |h| == |a| && count < |a| && h[..count + 1] == a[count := v][..count + 1]
    ensures h[..count] == a[..count] && h[count] == v
  {
    assert h[..count] == h[..count + 1][..count];
    assert h[count] == h[..count + 1][count];
  }

  /** One more word in front. */
  lemma CoversMore(s: string, t: string, v: nat, rest: string, r: Scan, count: nat, ws: seq<string>, e: Ending)
    requires e.Valid() && |r.host| == V6_SIZE && count < V6_SIZE
    requires Covers(rest, r, count + 1, ws, e) && s == t + (":" + rest)
    requires IsHextet(t, v) && r.host[count] == v
    ensures Covers(s, r, count, [t] + ws, e)
  {
    hide IsHextet, SpellsIpv4, NoDigit, ParseInt, AreHextets;
    var all := [t] + ws;
    assert all[1..] == ws;
    assert s == Colons(all) + (e.Text() + r.rest);
    var hs := r.host[count + 1..count + 1 + |ws|];
    assert r.host[count..count + |all|] == [v] + hs;
    OneMoreHextet(t, v, ws, hs);
  }

  lemma OneMoreHextet(t: string, v: nat, ws: seq<string>, hs: seq<nat>)
    requires IsHextet(t, v) && AreHextets(ws, hs)
    ensures AreHextets([t] + ws, [v] + hs)
  {
    hide IsHextet;
  }

  /** One round that reads a number. */
  lemma NumberRead(s: string, a: seq<nat>, count: nat, gap: nat) returns (t: string)
    requires |a| == V6_SIZE && count < V6_SIZE && gap <= V6_SIZE && (gap < V6_SIZE ==> gap <= count)
    requires ParseInt(s, 16, HEXTET_MAX).Int?
    ensures var p := ParseInt(s, 16, HEXTET_MAX);
            IsHextet(t, p.value) && s == t + p.rest && NoDigit(p.rest, 16)
  {
    t := NumeralRead(s, 16, HEXTET_MAX);
  }

  /** The end of the loop behind a number, without a colon. */
  lemma LastRead(s: string, a: seq<nat>, count: nat, gap: nat) returns (e: Ending)
    requires |a| == V6_SIZE && count < V6_SIZE && gap <= V6_SIZE && (gap < V6_SIZE ==> gap <= count)
    requires var p := ParseInt(s, 16, HEXTET_MAX); s != "" && p.Int? && !StartsWith(p.rest, ':')
    requires Hextets(s, a, count, gap).ok
    ensures e.Valid() && Covers(s, Hextets(s, a, count, gap), count, [], e)
    ensures e != Nothing
  {
    hide Hextets, ParseInt, ParseIpv4, IsHextet, NoDigit;
    var p := ParseInt(s, 16, HEXTET_MAX);
    var t := NumberRead(s, a, count, gap);
    var r := Hextets(s, a, count, gap);
    assert Colons([]) == "";
    if StartsWith(p.rest, '.') {
      HextetsDot(s, a, count, gap, p.value, p.rest);
      var v4 := ParseIpv4(s, '.', [0, 0, 0, 0]);
      var o := OnlyIpv4(s, '.', [0, 0, 0, 0]);
      e := Suffix(o);
      assert forall i :: 0 <= i < 4 ==> IsOctet(o[i], v4.host[i]);
      OctetsOfWords(v4.host, o);
      assert s == "" + (e.Text() + r.rest);
    } else {
      HextetsEnd(s, a, count, gap, p.value, p.rest);
      e := Hextet(t);
      assert s == "" + (e.Text() + r.rest);
    }
  }

  lemma OctetsOfWords(h: seq<nat>, o: seq<string>)
    requires SpellsIpv4(o, h)
    ensures var v, w := h[0] * 256 + h[1], h[2] * 256 + h[3];
            [v / 256, v % 256, w / 256, w % 256] == h
  {
    assert IsOctet(o[0], h[0]) && IsOctet(o[1], h[1]) && IsOctet(o[2], h[2]) && IsOctet(o[3], h[3]);
  }

  lemma CoversNothing(s: string, a: seq<nat>, count: nat, gap: nat)
    requires |a| == V6_SIZE && count <= V6_SIZE
    requires count == V6_SIZE || s == "" || ParseInt(s, 16, HEXTET_MAX) == NoInt
    ensures Covers(s, Scan(true, s, a, count, gap), count, [], Nothing)
  {
    assert s == Colons([]) + ("" + s);
  }

  /** Behind the double colon. */
  lemma {:induction false} ScanBehindGap(s: string, a: seq<nat>, count: nat, gap: nat) returns (ws: seq<string>, e: Ending)
    requires |a| == V6_SIZE && gap <= count <= V6_SIZE && gap < V6_SIZE
    requires Hextets(s, a, count, gap).ok
    ensures e.Valid() && Covers(s, Hextets(s, a, count, gap), count, ws, e)
    decreases |s|
  {
    hide IsHextet, NoDigit, ParseIpv4, Spells;
    var r := Hextets(s, a, count, gap);
    var p := ParseInt(s, 16, HEXTET_MAX);
    hide Hextets, ParseInt, Covers;
    if count == V6_SIZE || s == "" || p.NoInt? {
      ws, e := [], Nothing;
      NothingEnds(s, a, count, gap);
      CoversNothing(s, a, count, gap);
    } else if StartsWith(p.rest, ':') {
      ws, e := ScanOneMore(s, a, count, gap);
    } else {
      ws := [];
      e := LastRead(s, a, count, gap);
    }
  }

  lemma ScanOneMore(s: string, a: seq<nat>, count: nat, gap: nat) returns (ws: seq<string>, e: Ending)
    requires |a| == V6_SIZE && gap <= count < V6_SIZE && s != ""
    requires var p := ParseInt(s, 16, HEXTET_MAX); p.Int? && StartsWith(p.rest, ':')
    requires Hextets(s, a, count, gap).ok
    ensures e.Valid() && Covers(s, Hextets(s, a, count, gap), count, ws, e)
    decreases |s|, 0
  {
    hide IsHextet, NoDigit, ParseIpv4, Spells, Hextets, ParseInt, Covers;
    var p := ParseInt(s, 16, HEXTET_MAX);
    var rest := p.rest[1..];
    var t := NumberRead(s, a, count, gap);
    HextetsColon(s, a, count, gap, p.value, p.rest);
    ws, e := ScanBehindGap(rest, a[count := p.value], count + 1, gap);
    HextetsKeep(rest, a[count := p.value], count + 1, gap);
    var r := Hextets(s, a, count, gap);
    assert r.host[count] == r.host[..count + 1][count];
    assert p.rest == ":" + rest;
    CoversMore(s, t, p.value, rest, r, count, ws, e);
    ws := [t] + ws;
  }

  /** The whole loop, when it has come to a double colon or to eight hextets: the words in front,
      and either the ending or the double colon with what is behind it. */
  lemma {:induction false} ScanCovers(s: string, a: seq<nat>, count: nat)
    returns (front: seq<string>, back: seq<string>, e: Ending)
    requires |a| == V6_SIZE && count <= V6_SIZE
    requires var r := Hextets(s, a, count, V6_SIZE); r.ok && (r.gap < V6_SIZE || r.count == V6_SIZE)
    ensures e.Valid()
    ensures var r := Hextets(s, a, count, V6_SIZE);
            if r.gap == V6_SIZE then back == [] && Covers(s, r, count, front, e)
            else
              && count + |front| == r.gap && AreHextets(front, r.host[count..r.gap])
              && exists more ::
                   s == Colons(front) + ((if r.gap == 0 then "::" else ":") + more) && Covers(more, r, r.gap, back, e)
    decreases |s|
  {
    hide IsHextet, NoDigit, ParseIpv4, Spells, Hextets, ParseInt, Covers;
    var r := Hextets(s, a, count, V6_SIZE);
    var p := ParseInt(s, 16, HEXTET_MAX);
    if count == V6_SIZE {
      front, back, e := [], [], Nothing;
      NothingEnds(s, a, count, V6_SIZE);
      CoversNothing(s, a, count, V6_SIZE);
    } else if s != "" && p.Int? {
      if StartsWith(p.rest, ':') {
        front, back, e := CoversOneMore(s, a, count);
      } else {
        front, back := [], [];
        LastKeepsGap(s, a, count);
        e := LastRead(s, a, count, V6_SIZE);
      }
    } else {
      front := [];
      var more := GapRead(s, a, count);
      back, e := ScanBehindGap(more, a, count, count);
      HextetsKeep(more, a, count, count);
      assert Colons([]) + ((if r.gap == 0 then "::" else ":") + more) == s;
    }
  }

  /** A round without a number that goes on has come to the double colon. */
  lemma GapRead(s: string, a: seq<nat>, count: nat) returns (more: string)
    requires |a| == V6_SIZE && count < V6_SIZE
    requires s == "" || ParseInt(s, 16, HEXTET_MAX) == NoInt
    requires var r := Hextets(s, a, count, V6_SIZE); r.gap < V6_SIZE || r.count == V6_SIZE
    ensures s == (if count == 0 then "::" else ":") + more
    ensures Hextets(s, a, count, V6_SIZE) == Hextets(more, a, count, count)
  {
    hide ParseInt, ParseIpv4;
    more := if count > 0 then s[1..] else s[2..];
  }

  lemma LastKeepsGap(s: string, a: seq<nat>, count: nat)
    requires |a| == V6_SIZE && count < V6_SIZE && s != ""
    requires var p := ParseInt(s, 16, HEXTET_MAX); p.Int? && !StartsWith(p.rest, ':')
    ensures Hextets(s, a, count, V6_SIZE).gap == V6_SIZE
  {
    hide ParseInt, ParseIpv4;
  }

  lemma CoversOneMore(s: string, a: seq<nat>, count: nat)
    returns (front: seq<string>, back: seq<string>, e: Ending)
    requires |a| == V6_SIZE && count < V6_SIZE && s != ""
    requires var r := Hextets(s, a, count, V6_SIZE); r.ok && (r.gap < V6_SIZE || r.count == V6_SIZE)
    requires var p := ParseInt(s, 16, HEXTET_MAX); p.Int? && StartsWith(p.rest, ':')
    ensures e.Valid()
    ensures var r := Hextets(s, a, count, V6_SIZE);
            if r.gap == V6_SIZE then back == [] && Covers(s, r, count, front, e)
            else
              && count + |front| == r.gap && AreHextets(front, r.host[count..r.gap])
              && exists more ::
                   s == Colons(front) + ((if r.gap == 0 then "::" else ":") + more) && Covers(more, r, r.gap, back, e)
    decreases |s|, 0
  {
    hide IsHextet, NoDigit, ParseIpv4, Spells, Hextets, ParseInt, Covers;
    var r := Hextets(s, a, count, V6_SIZE);
    var p := ParseInt(s, 16, HEXTET_MAX);
    var t := NumberRead(s, a, count, V6_SIZE);
    var rest := p.rest[1..];
    assert p.rest == ":" + rest;
    HextetsColon(s, a, count, V6_SIZE, p.value, p.rest);
    var ws;
    ws, back, e := ScanCovers(rest, a[count := p.value], count + 1);
    HextetsKeep(rest, a[count := p.value], count + 1, V6_SIZE);
    assert r.host[count] == r.host[..count + 1][count];
    front := [t] + ws;
    if r.gap == V6_SIZE {
      CoversMore(s, t, p.value, rest, r, count, ws, e);
    } else {
      var more :| rest == Colons(ws) + ((if r.gap == 0 then "::" else ":") + more) && Covers(more, r, r.gap, back, e);
      assert front[1..] == ws;
      assert s == Colons(front) + ((if r.gap == 0 then "::" else ":") + more);
      MoreHextets(t, p.value, ws, r.host, count);
    }
  }

  lemma MoreHextets(t: string, v: nat, ws: seq<string>, h: seq<nat>, count: nat)
    requires count + 1 + |ws| <= |h| && IsHextet(t, v) && h[count] == v
    requires AreHextets(ws, h[count + 1..count + 1 + |ws|])
    ensures AreHextets([t] + ws, h[count..count + 1 + |ws|])
  {
    hide IsHextet;
    var all, hs := [t] + ws, h[count..count + 1 + |ws|];
    forall i | 0 <= i < |all|
      ensures IsHextet(all[i], hs[i])
    {
      if i > 0 {
        assert hs[i] == h[count + 1..count + 1 + |ws|][i - 1];
      }
    }
  }

  /** Every text that is accepted is a spelling of the address that comes out, in brackets or not,
      followed by what is left. */
  lemma OnlyIpv6(s: string, a: seq<nat>) returns (sp: Spelling, bracketed: bool)
    requires |a| == V6_SIZE && ParseIpv6(s, a).ok
    ensures var p := ParseIpv6(s, a);
            && SpellsIpv6(sp, p.host)
            && s == (if bracketed then "[" + sp.Text() + "]" else sp.Text()) + p.rest
            && (!bracketed ==> Ends(sp, p.rest))
  {
    hide Hextets, ParseInt, Covers, Ends, SpellsIpv6, Expand;
    bracketed := StartsWith(s, '[');
    var t := if bracketed then s[1..] else s;
    var r := Hextets(t, a, 0, V6_SIZE);
    var p := ParseIpv6(s, a);
    var front, back, e := ScanCovers(t, a, 0);
    sp := Spelling(front, r.gap < V6_SIZE, back, e);
    if sp.gap {
      var more :| t == Colons(front) + ((if r.gap == 0 then "::" else ":") + more) && Covers(more, r, r.gap, back, e);
      GapSpells(sp, t, more, r);
    } else {
      PlainSpells(sp, t, r);
    }
    if bracketed {
      BracketRead(s, t, sp.Text(), r.rest, p.rest);
    }
  }

  lemma BracketRead(s: string, t: string, text: string, rest: string, rest': string)
    requires s != "" && s[0] == '[' && t == s[1..] && t == text + rest && rest != "" && rest[0] == ']' && rest' == rest[1..]
    ensures s == "[" + text + "]" + rest'
  {
    assert rest == "]" + rest';
    assert s == "[" + t;
  }

  lemma GapSpells(sp: Spelling, t: string, more: string, r: Scan)
    requires |r.host| == V6_SIZE && r.gap <= r.count < V6_SIZE && sp.ending.Valid() && sp.gap
    requires |sp.front| == r.gap && AreHextets(sp.front, r.host[0..r.gap])
    requires t == Colons(sp.front) + ((if r.gap == 0 then "::" else ":") + more)
    requires Covers(more, r, r.gap, sp.back, sp.ending)
    ensures sp.Valid() && SpellsIpv6(sp, Expand(r.host, r.count, r.gap))
    ensures t == sp.Text() + r.rest && Ends(sp, r.rest)
  {
    hide ParseInt, NoDigit, IsHextet, SpellsIpv4, Colons;
    var h := Expand(r.host, r.count, r.gap);
    var n, m := |sp.front|, |sp.back| + sp.ending.Size();
    LastWords(r.host, r.count, r.gap);
    assert h[..n] == r.host[0..n];
    assert h[8 - m..8 - m + |sp.back|] == h[8 - m..][..|sp.back|] == r.host[n..n + |sp.back|];
    GapText(sp, r.rest);
  }

  lemma LastWords(b: seq<nat>, count: nat, gap: nat)
    requires |b| == V6_SIZE && gap <= count < V6_SIZE
    ensures var h := Expand(b, count, gap);
            && (count > gap ==> h[7] == b[count - 1])
            && (count > gap + 1 ==> h[6] == b[count - 2])
            && h[8 - (count - gap)..] == b[gap..count]
            && forall i :: gap <= i < 8 - (count - gap) ==> h[i] == 0
  {
  }

  lemma PlainSpells(sp: Spelling, t: string, r: Scan)
    requires |r.host| == V6_SIZE && r.count == V6_SIZE && sp.ending.Valid() && !sp.gap && sp.back == []
    requires Covers(t, r, 0, sp.front, sp.ending)
    ensures sp.Valid() && SpellsIpv6(sp, r.host)
    ensures t == sp.Text() + r.rest && Ends(sp, r.rest)
  {
    hide ParseInt, NoDigit, IsHextet, SpellsIpv4, Colons;
    assert r.host[..|sp.front|] == r.host[0..|sp.front|];
    PlainText(sp, r.rest);
  }
}
