/** The text that `ip<6>::to_string` prints, in closed form (section 4 of RFC 5952, except that a
    single zero is abbreviated too). */
module PrintedForm {
  import opened Parser
  import opened Numerals
  import opened HostAddress
  import opened AddressGrammar
  import P = Ipv6Printer

  /** The hextets from `i` up to `j`, each as its shortest numeral in lower case. */
  function Words(h: seq<nat>, i: nat, j: nat): (r: seq<string>)
    requires i <= j <= |h|
    ensures |r| == j - i
    decreases j - i
  {
    if i == j then [] else [Print(h[i], 16)] + Words(h, i + 1, j)
  }

  /** The spelling that is printed: the first of the longest runs of zeros gives way to the double
      colon. */
  function Printed(h: seq<nat>): Spelling
    requires |h| == 8
  {
    var g := P.LongestGap(h, 0);
    var e := g.start + g.len;
    if g.len == 0 then Spelling(Words(h, 0, 7), false, [], Hextet(Print(h[7], 16)))
    else if e == 8 then Spelling(Words(h, 0, g.start), true, [], Nothing)
    else Spelling(Words(h, 0, g.start), true, Words(h, e, 7), Hextet(Print(h[7], 16)))
  }

  /** Behind the gap, or without one. */
  lemma {:induction false} TailText(h: seq<nat>, g: P.Gap, i: nat)
    requires |h| == 8 && g.start + g.len <= i < 8
    ensures P.TextFrom(h, g, i) == Colons(Words(h, i, 7)) + Print(h[7], 16)
    decreases 8 - i
  {
    hide Print, P.TextFrom, P.Piece;
    P.TextStep(h, g, i);
    P.PieceIs(h, g, i);
    if i < 7 {
      TailText(h, g, i + 1);
      ColonsStep(Print(h[i], 16), Words(h, i + 1, 7), Print(h[7], 16));
    } else {
      TextEnds(h, g);
      assert Print(h[7], 16) + "" == "" + Print(h[7], 16);
    }
  }

  lemma ColonsStep(w: string, ws: seq<string>, more: string)
    ensures Colons([w] + ws) + more == (w + ":") + (Colons(ws) + more)
  {
    assert ([w] + ws)[1..] == ws;
  }

  lemma TextEnds(h: seq<nat>, g: P.Gap)
    ensures P.TextFrom(h, g, |h|) == ""
  {
  }

  /** In front of the gap. */
  lemma {:induction false} HeadText(h: seq<nat>, g: P.Gap, i: nat)
    requires |h| == 8 && 0 < g.len && i <= g.start && g.start + g.len <= 8
    ensures P.TextFrom(h, g, i) == Colons(Words(h, i, g.start)) + P.TextFrom(h, g, g.start)
    decreases g.start - i
  {
    hide Print, P.TextFrom, P.Piece;
    if i < g.start {
      P.TextStep(h, g, i);
      P.PieceIs(h, g, i);
      HeadText(h, g, i + 1);
      ColonsStep(Print(h[i], 16), Words(h, i + 1, g.start), P.TextFrom(h, g, g.start));
    } else {
      assert "" + P.TextFrom(h, g, i) == P.TextFrom(h, g, i);
    }
  }

  /** What is printed from the gap on. */
  lemma GapPrints(h: seq<nat>, g: P.Gap)
    requires |h| == 8 && 0 < g.len && g.start + g.len <= 8 && g != P.Gap(0, 1)
    ensures P.TextFrom(h, g, g.start)
         == (if g.start == 0 then "::" else ":") + P.TextFrom(h, g, g.start + g.len)
  {
    hide P.TextFrom;
    if g.start == 0 {
      P.LeadingGapText(h, g);
    } else {
      P.GapText(h, g, g.start);
    }
  }

  /** The printed text, for every address but those that print a lone colon. */
  lemma PrintedText(h: seq<nat>)
    requires |h| == 8 && !P.PrintsLoneColon(h)
    ensures Printed(h).Valid() && P.Ipv6Text(h) == Printed(h).Text()
  {
    hide Print, P.TextFrom, P.LongestGap, Colons, Words;
    P.LoneColonGap(h);
    var g := P.LongestGap(h, 0);
    if g.len == 0 {
      SameGapText(h, g);
      TailText(h, P.Gap(0, 0), 0);
      PlainText(Printed(h), "");
    } else {
      HeadText(h, g, 0);
      GapPrints(h, g);
      var e := g.start + g.len;
      if e < 8 {
        TailText(h, g, e);
      } else {
        TextEnds(h, g);
        NoColons();
      }
      GapText(Printed(h), "");
    }
    WholeText(Printed(h));
  }

  lemma NoColons()
    ensures Colons([]) == ""
  {
  }

  lemma WholeText(sp: Spelling)
    requires sp.Valid()
    ensures sp.Text() + "" == sp.Text() && sp.ending.Text() + "" == sp.ending.Text()
  {
  }

  lemma SameGapText(h: seq<nat>, g: P.Gap)
    requires |h| == 8 && g.len == 0 && g.start == 8
    ensures P.TextFrom(h, g, 0) == P.TextFrom(h, P.Gap(0, 0), 0)
  {
    P.SameText(h, 0);
  }

  /** And that text is a spelling of the address, in shortest numerals and lower case. */
  lemma PrintedSpells(h: seq<nat>)
    requires IsIpv6(h) && !P.PrintsLoneColon(h)
    ensures SpellsIpv6(Printed(h), h)
  {
    hide Words, Print, Spells;
    P.LoneColonGap(h);
    var g := P.LongestGap(h, 0);
    if g.len == 0 {
      WordsSpell(h, 0, 7);
    } else {
      var e := g.start + g.len;
      WordsSpell(h, 0, g.start);
      if e < 8 {
        WordsSpell(h, e, 7);
        assert 8 - (7 - e + 1) == e;
      }
    }
    PrintIsCanonical(h[7], 16);
  }

  lemma {:induction false} WordsSpell(h: seq<nat>, i: nat, j: nat)
    requires IsIpv6(h) && i <= j <= 8
    ensures AreHextets(Words(h, i, j), h[i..j])
    decreases j - i
  {
    hide Print, Spells;
    if i < j {
      WordsSpell(h, i + 1, j);
      PrintIsCanonical(h[i], 16);
      assert h[i..j][1..] == h[i + 1..j];
    }
  }
}
