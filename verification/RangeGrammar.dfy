/** Which texts are ranges: `range<Host>::parse` of hostaddress.hpp. */
module RangeGrammar {
  import opened Parser
  import opened Numerals
  import opened HostAddress
  import opened AddressGrammar
  import opened AddressRange
  import opened Prefix

  /** The whole text is an address. */
  predicate IsAddress(kind: Kind, t: string, h: seq<nat>) {
    ParseHost(kind, t, Zeros(kind)) == IpParse(true, "", h)
  }

  datatype Form = Star | Single(h: seq<nat>) | Interval(h: seq<nat>, g: seq<nat>) | Cidr(h: seq<nat>, prefix: nat)

  /** The texts of a form, `a` and `b` being its parts. */
  predicate HasForm(kind: Kind, s: string, f: Form, a: string, b: string) {
    match f
    case Star => s == "*"
    case Single(h) => s == a && IsAddress(kind, a, h)
    case Interval(h, g) => s == a + ("-" + b) && IsAddress(kind, a, h) && IsAddress(kind, b, g)
    case Cidr(h, p) => s == a + ("/" + b) && IsAddress(kind, a, h) && b != "" && Spells(b, p, 10) && p <= kind.BitWidth()
  }

  /** The range that a form stands for. */
  function Meaning(kind: Kind, f: Form): Range
    requires f.Interval? ==> |f.h| == |f.g|
  {
    match f
    case Star => Range(Zeros(kind), Ones(kind))
    case Single(h) => Range(h, h)
    case Interval(h, g) => if LessOrEqual(h, g) then Range(h, g) else Range(g, h)
    case Cidr(h, p) =>
      var k := if p <= kind.BitWidth() then kind.BitWidth() - p else 0;
      Range(LowEnd(h, kind.WordWidth(), k), HighEnd(h, kind.WordWidth(), k))
  }

  /** What is accepted in front of something else is an address by itself. */
  lemma HostInFront(kind: Kind, s: string, g: seq<nat>) returns (t: string)
    requires |g| == kind.Size() && ParseHost(kind, s, g).ok
    ensures var p := ParseHost(kind, s, g);
            s == t + p.rest && IsAddress(kind, t, p.host)
  {
    var p := ParseHost(kind, s, g);
    if kind.V4? {
      var o := OnlyIpv4(s, '.', g);
      t := Dotted(o, '.');
      NothingBehind(10);
      ReadsIpv4(o, p.host, '.', "", Zeros(kind));
    } else {
      var sp, bracketed := OnlyIpv6(s, g);
      t := if bracketed then "[" + sp.Text() + "]" else sp.Text();
      EndsAtEnd(sp);
      ReadsIpv6(sp, p.host, "", Zeros(kind));
    }
    assert t + "" == t;
  }

  lemma NothingBehind(base: nat)
    requires base == 10 || base == 16
    ensures NoDigit("", base)
  {
  }

  lemma EndsAtEnd(sp: Spelling)
    ensures Ends(sp, "")
  {
  }

  /** Every valid range is the meaning of one of the four forms, and the text has that form from its
      first character to its last. */
  lemma OnlyRanges(kind: Kind, s: string) returns (f: Form, a: string, b: string)
    requires ParseRange(kind, s).IsValid()
    ensures HasForm(kind, s, f, a, b)
    ensures f.Interval? ==> |f.h| == |f.g|
    ensures ParseRange(kind, s) == Meaning(kind, f)
  {
    hide ParseHost, ParseInt, LowEnd, HighEnd, Spells, NoDigit, LessOrEqual;
    a, b := "", "";
    if StartsWith(s, '*') {
      f := Star;
      assert s == "*" + s[1..];
    } else {
      var p := ParseHost(kind, s, Zeros(kind));
      a := HostInFront(kind, s, Zeros(kind));
      if StartsWith(p.rest, '-') {
        var rest := p.rest[1..];
        assert p.rest == "-" + rest;
        b := HostInFront(kind, rest, Zeros(kind));
        f := Interval(p.host, ParseHost(kind, rest, Zeros(kind)).host);
        assert b + "" == b;
      } else if StartsWith(p.rest, '/') {
        var rest := p.rest[1..];
        assert p.rest == "/" + rest;
        b := NumeralRead(rest, 10, 255);
        f := Cidr(p.host, ParseInt(rest, 10, 255).value);
        assert b + "" == b;
      } else {
        f := Single(p.host);
        assert a + "" == a;
      }
    }
  }
}
