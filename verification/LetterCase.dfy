/** The case of the letters in an address does not matter to `parse_ip`. */
module LetterCase {
  import opened Parser
  import opened Numerals
  import opened HostAddress
  import opened Ipv6Printer

  /** The same text, except that a digit may be written in the other case. */
  predicate SameUpToCase(s: string, t: string) {
    |s| == |t| && forall i :: 0 <= i < |s| ==> SameChar(s[i], t[i])
  }

  predicate SameChar(c: char, d: char) {
    c == d || exists v :: 0 <= v < 16 && IsDigit(c, v) && IsDigit(d, v)
  }

  lemma SameDigit(c: char, d: char, base: nat)
    requires (base == 10 || base == 16) && SameChar(c, d)
    ensures Matches(c, base) <==> Matches(d, base)
    ensures Matches(c, base) ==> CharToNum(c, base) == CharToNum(d, base)
  {
    hide IsDigit, CharToNum, Matches;
    if c != d {
      var v :| 0 <= v < 16 && IsDigit(c, v) && IsDigit(d, v);
      if v < base {
        DigitsOf(c, v, base);
        DigitsOf(d, v, base);
      } else {
        NoSmallDigit(c, v, base);
        NoSmallDigit(d, v, base);
      }
    }
  }

  lemma NoSmallDigit(c: char, v: nat, base: nat)
    requires (base == 10 || base == 16) && base <= v && IsDigit(c, v)
    ensures !Matches(c, base)
  {
    TableEntry(v);
  }

  lemma SamePunctuation(c: char, d: char, p: char)
    requires SameChar(c, d) && (p == ':' || p == '.' || p == '[' || p == ']')
    ensures c == p <==> d == p
  {
    if c != d {
      var v :| 0 <= v < 16 && IsDigit(c, v) && IsDigit(d, v);
      TableEntry(v);
    }
  }

  lemma SameFrom(s: string, t: string, n: nat)
    requires SameUpToCase(s, t) && n <= |s|
    ensures SameUpToCase(s[n..], t[n..]) && SameUpToCase(s[..n], t[..n])
  {
    hide SameChar;
  }

  lemma SameStart(s: string, t: string, p: char)
    requires SameUpToCase(s, t) && (p == ':' || p == '.' || p == '[' || p == ']')
    ensures StartsWith(s, p) <==> StartsWith(t, p)
    ensures StartsWith(s, p) ==> SameUpToCase(s[1..], t[1..])
  {
    if s != "" {
      SamePunctuation(s[0], t[0], p);
      SameFrom(s, t, 1);
    }
  }

  lemma {:induction false} SameRun(s: string, t: string, base: nat)
    requires (base == 10 || base == 16) && SameUpToCase(s, t)
    ensures DigitRun(s, base) == DigitRun(t, base)
    decreases |s|
  {
    hide Matches, SameChar, CharToNum;
    if s != "" {
      SameDigit(s[0], t[0], base);
      SameFrom(s, t, 1);
      SameRun(s[1..], t[1..], base);
    }
  }

  lemma {:induction false} SameValue(s: string, t: string, base: nat)
    requires (base == 10 || base == 16) && SameUpToCase(s, t) && AllDigits(s, base) && AllDigits(t, base)
    ensures Value(s, base) == Value(t, base)
    decreases |s|
  {
    hide Matches, SameChar, CharToNum;
    if s != "" {
      SameDigit(s[|s| - 1], t[|t| - 1], base);
      SameFrom(s, t, |s| - 1);
      SameValue(s[..|s| - 1], t[..|t| - 1], base);
    }
  }

  lemma SameInt(s: string, t: string, base: nat, max: nat)
    requires (base == 10 || base == 16) && SameUpToCase(s, t)
    ensures match ParseInt(s, base, max)
            case NoInt => ParseInt(t, base, max) == NoInt
            case Int(v, rest) =>
              var p := ParseInt(t, base, max);
              p.Int? && p.value == v && SameUpToCase(rest, p.rest)
  {
    hide SameUpToCase, Matches, Value, DigitRun;
    var n := DigitRun(s, base);
    SameRun(s, t, base);
    SameFrom(s, t, n);
    SameValue(s[..n], t[..n], base);
  }

  predicate SameParse(p: IpParse, q: IpParse) {
    p.ok == q.ok && p.host == q.host && SameUpToCase(p.rest, q.rest)
  }

  lemma SameOctet(p: IpParse, q: IpParse, i: nat)
    requires SameParse(p, q) && |p.host| == V4_SIZE && i < V4_SIZE
    ensures SameParse(Octet(p, i), Octet(q, i))
  {
    hide SameUpToCase, ParseInt;
    SameInt(p.rest, q.rest, 10, OCTET_MAX);
  }

  lemma SameSeparator(p: IpParse, q: IpParse, sep: char)
    requires SameParse(p, q) && (sep == '.' || sep == ']')
    ensures SameParse(Separator(p, sep), Separator(q, sep))
  {
    hide SameUpToCase;
    SameStart(p.rest, q.rest, sep);
  }

  lemma SameIpv4(s: string, t: string, g: seq<nat>)
    requires SameUpToCase(s, t) && |g| == V4_SIZE
    ensures SameParse(ParseIpv4(s, '.', g), ParseIpv4(t, '.', g))
  {
    hide SameUpToCase, Octet;
    var p, q := IpParse(true, s, g), IpParse(true, t, g);
    SameOctet(p, q, 0);
    SameSeparator(Octet(p, 0), Octet(q, 0), '.');
    var p0, q0 := Separator(Octet(p, 0), '.'), Separator(Octet(q, 0), '.');
    SameOctet(p0, q0, 1);
    SameSeparator(Octet(p0, 1), Octet(q0, 1), '.');
    var p1, q1 := Separator(Octet(p0, 1), '.'), Separator(Octet(q0, 1), '.');
    SameOctet(p1, q1, 2);
    SameSeparator(Octet(p1, 2), Octet(q1, 2), '.');
    SameOctet(Separator(Octet(p1, 2), '.'), Separator(Octet(q1, 2), '.'), 3);
  }

  predicate SameScan(r: Scan, q: Scan) {
    && r.ok == q.ok && r.host == q.host && r.count == q.count && r.gap == q.gap
    && SameUpToCase(r.rest, q.rest)
  }

  lemma {:induction false} SameHextets(s: string, t: string, a: seq<nat>, count: nat, gap: nat)
    requires SameUpToCase(s, t) && |a| == V6_SIZE
    requires count <= V6_SIZE && gap <= V6_SIZE && (gap < V6_SIZE ==> gap <= count)
    ensures SameScan(Hextets(s, a, count, gap), Hextets(t, a, count, gap))
    decreases |s|
  {
    hide SameUpToCase, ParseInt, ParseIpv4;
    SameEmpty(s, t);
    if count < V6_SIZE && s != "" {
      SameInt(s, t, 16, HEXTET_MAX);
      match ParseInt(s, 16, HEXTET_MAX)
      case Int(v, rest) =>
        var rest' := ParseInt(t, 16, HEXTET_MAX).rest;
        SameStart(rest, rest', ':');
        SameStart(rest, rest', '.');
        SameIpv4(s, t, [0, 0, 0, 0]);
        if StartsWith(rest, ':') {
          SameHextets(rest[1..], rest'[1..], a[count := v], count + 1, gap);
        }
      case NoInt =>
        SameStart(s, t, ':');
        if StartsWith(s, ':') {
          SameStart(s[1..], t[1..], ':');
          if gap > count && count > 0 {
            SameHextets(s[1..], t[1..], a, count, count);
          } else if gap > count && StartsWith(s[1..], ':') {
            assert s[1..][1..] == s[2..] && t[1..][1..] == t[2..];
            SameHextets(s[2..], t[2..], a, count, count);
          }
        }
    }
  }

  lemma SameEmpty(s: string, t: string)
    requires SameUpToCase(s, t)
    ensures s == "" <==> t == ""
  {
  }

  /** Texts that differ only in the case of their digits are accepted alike, as the same address. */
  lemma CaseIsIgnored(s: string, t: string, a: seq<nat>)
    requires SameUpToCase(s, t) && |a| == V6_SIZE
    ensures SameParse(ParseIpv6(s, a), ParseIpv6(t, a))
  {
    hide SameUpToCase, Hextets;
    SameStart(s, t, '[');
    var b := StartsWith(s, '[');
    var s', t' := if b then s[1..] else s, if b then t[1..] else t;
    SameHextets(s', t', a, 0, V6_SIZE);
    var r, q := Hextets(s', a, 0, V6_SIZE), Hextets(t', a, 0, V6_SIZE);
    SameStart(r.rest, q.rest, ']');
  }

  /** The printed form of an address in any mix of cases is read back exactly when the printed form
      itself is. */
  lemma AnyCaseRoundTripExactly(h: seq<nat>, t: string, a: seq<nat>)
    requires IsIpv6(h) && |a| == V6_SIZE && SameUpToCase(t, Ipv6Text(h))
    ensures ParseIpv6(t, a) == IpParse(true, "", h) <==> ParseIpv6(Ipv6Text(h), a) == IpParse(true, "", h)
    ensures ParseIpv6(t, a) == IpParse(true, "", h) <==> !PrintsLoneColon(h)
  {
    hide ParseIpv6, Ipv6Text;
    CaseIsIgnored(t, Ipv6Text(h), a);
    SameEmpty(ParseIpv6(t, a).rest, ParseIpv6(Ipv6Text(h), a).rest);
    Ipv6RoundTripExactly(h, a);
  }
}
