/** `escaped` of string.hpp with a map of characters: replacements one after the other that amount to
    one substitution. */
module EscapeMap {
  import opened Escaping
  import opened Html

  /** The patterns are single characters, all different. */
  predicate Characters(m: seq<(string, string)>) {
    && (forall i :: 0 <= i < |m| ==> |m[i].1| == 1)
    && (forall i, j :: 0 <= i < j < |m| ==> m[i].1 != m[j].1)
  }

  /** What is put in for an entry contains no pattern that is replaced later. */
  predicate Final(esc: string, m: seq<(string, string)>)
    requires Characters(m)
  {
    forall i, j :: 0 <= i < j < |m| ==> m[j].1[0] !in esc + m[i].0
  }

  /** A substitution and that of the map's characters: each becomes the escape string and its code. */
  function CodesFrom(t: map<char, string>, esc: string, m: seq<(string, string)>): map<char, string>
    requires Characters(m)
    decreases |m|
  {
    if m == [] then t else CodesFrom(t[m[0].1[0] := esc + m[0].0], esc, m[1..])
  }

  lemma RestIsFinal(esc: string, m: seq<(string, string)>)
    requires m != [] && Characters(m) && Final(esc, m)
    ensures Characters(m[1..]) && Final(esc, m[1..])
    ensures forall i :: 0 <= i < |m[1..]| ==> m[1..][i].1[0] != m[0].1[0] && m[1..][i].1[0] !in esc + m[0].0
  {
    var r := m[1..];
    forall i, j | 0 <= i < j < |r|
      ensures r[j].1[0] !in esc + r[i].0
    {
      assert r[i] == m[i + 1] && r[j] == m[j + 1];
    }
    forall i | 0 <= i < |r|
      ensures r[i].1[0] != m[0].1[0] && r[i].1[0] !in esc + m[0].0
    {
      assert r[i] == m[i + 1];
      assert m[0].1 == [m[0].1[0]] && r[i].1 == [r[i].1[0]];
    }
  }

  /** Replacing one character after another adds to a substitution that has put in none of them. */
  lemma {:induction false} MoreCodes(s: string, t: map<char, string>, esc: string, m: seq<(string, string)>)
    requires Characters(m) && Final(esc, m) && forall p :: p in m ==> p.1 != ""
    requires forall i :: 0 <= i < |m| ==> m[i].1[0] !in t && forall x :: x in t ==> m[i].1[0] !in t[x]
    ensures ReplaceAll(Substituted(s, t), esc, m) == Substituted(s, CodesFrom(t, esc, m))
    decreases |m|
  {
    hide Replace, Substituted;
    if m != [] {
      var c := m[0].1[0];
      assert m[0].1 == [c] && m[0] in m;
      AnotherEntity(s, t, c, esc + m[0].0);
      RestIsFinal(esc, m);
      MoreCodes(s, t[c := esc + m[0].0], esc, m[1..]);
    }
  }

  lemma {:induction false} CodesFromExactly(t: map<char, string>, esc: string, m: seq<(string, string)>, c: char)
    requires Characters(m)
    ensures var codes := CodesFrom(t, esc, m);
            && (forall i :: 0 <= i < |m| && m[i].1 == [c] ==> c in codes && codes[c] == esc + m[i].0)
            && ((forall i :: 0 <= i < |m| ==> m[i].1 != [c]) ==>
                  (c in codes <==> c in t) && (c in t ==> codes[c] == t[c]))
    decreases |m|
  {
    if m != [] {
      assert m[0].1 == [m[0].1[0]];
      assert forall i :: 1 <= i < |m| ==> m[i] == m[1..][i - 1];
      assert forall i :: 0 <= i < |m[1..]| ==> m[1..][i] == m[i + 1];
      CodesFromExactly(t[m[0].1[0] := esc + m[0].0], esc, m[1..], c);
    }
  }

  /** With at most one character for escaping that is no pattern, escaping is done character by
      character: the escape character is doubled, the character of an entry becomes the escape
      character and the entry's code, and any other one stays. */
  lemma EscapedByChar(s: string, esc: string, m: seq<(string, string)>)
    requires |esc| <= 1 && Characters(m) && Final(esc, m) && forall p :: p in m ==> p.1 != "" && p.1 != esc
    ensures s == "" ==> Escaped(s, esc, m) == ""
    ensures s != "" && [s[0]] == esc ==> Escaped(s, esc, m) == esc + esc + Escaped(s[1..], esc, m)
    ensures forall i :: 0 <= i < |m| && s != "" && m[i].1 == [s[0]] ==>
              Escaped(s, esc, m) == esc + m[i].0 + Escaped(s[1..], esc, m)
    ensures s != "" && [s[0]] != esc && (forall i :: 0 <= i < |m| ==> m[i].1 != [s[0]]) ==>
              Escaped(s, esc, m) == [s[0]] + Escaped(s[1..], esc, m)
  {
    var t := if esc == "" then map[] else map[esc[0] := esc + esc];
    FirstReplacement(s, esc);
    PatternsAreOther(esc, m);
    MoreCodes(s, t, esc, m);
    if s != "" {
      FirstReplacement(s[1..], esc);
      MoreCodes(s[1..], t, esc, m);
      CodesFromExactly(t, esc, m, s[0]);
      assert esc != "" ==> esc == [esc[0]];
    }
  }

  lemma FirstReplacement(s: string, esc: string)
    requires |esc| <= 1
    ensures (if esc == "" then s else Replace(s, esc, esc + esc))
         == Substituted(s, if esc == "" then map[] else map[esc[0] := esc + esc])
  {
    if esc == "" {
      SubstituteNothing(s, map[]);
    } else {
      assert esc == [esc[0]];
      ReplaceIsSubstitution(s, esc[0], esc + esc);
    }
  }

  lemma PatternsAreOther(esc: string, m: seq<(string, string)>)
    requires |esc| <= 1 && Characters(m) && forall p :: p in m ==> p.1 != "" && p.1 != esc
    ensures var t := if esc == "" then map[] else map[esc[0] := esc + esc];
            forall i :: 0 <= i < |m| ==> m[i].1[0] !in t && forall x :: x in t ==> m[i].1[0] !in t[x]
  {
    forall i | 0 <= i < |m| && esc != ""
      ensures m[i].1[0] != esc[0]
    {
      assert m[i] in m && m[i].1 == [m[i].1[0]] && esc == [esc[0]];
    }
  }
}
