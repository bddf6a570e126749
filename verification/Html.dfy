/** `html_encoded` of string.hpp: five replacements one after the other that amount to one
    substitution, and can be undone. */
module Html {
  import opened Escaping

  const Entities: seq<(string, string)> :=
    [("&amp;", "&"), ("&lt;", "<"), ("&gt;", ">"), ("&quot;", "\""), ("&apos;", "'")]

  /** What the function computes: one replacement after another, over the whole string. */
  function Encoded(s: string): string {
    assert forall p :: p in Entities ==> p.1 != "";
    Escaped(s, "", Entities)
  }

  /** Substituting all characters at once. */
  function Substituted(s: string, m: map<char, string>): string
    decreases |s|
  {
    if s == "" then ""
    else (if s[0] in m then m[s[0]] else [s[0]]) + Substituted(s[1..], m)
  }

  const Entity: map<char, string> :=
    map['&' := "&amp;", '<' := "&lt;", '>' := "&gt;", '"' := "&quot;", '\'' := "&apos;"]

  lemma {:induction false} SubstitutedConcat(a: string, b: string, m: map<char, string>)
    ensures Substituted(a + b, m) == Substituted(a, m) + Substituted(b, m)
    decreases |a|
  {
    if a == "" {
      assert a + b == b;
    } else {
      SubstitutedConcat(a[1..], b, m);
      assert (a + b)[1..] == a[1..] + b;
      Assoc(if a[0] in m then m[a[0]] else [a[0]], Substituted(a[1..], m), Substituted(b, m));
    }
  }

  lemma {:induction false} SubstituteNothing(s: string, m: map<char, string>)
    requires forall i :: 0 <= i < |s| ==> s[i] !in m
    ensures Substituted(s, m) == s
    decreases |s|
  {
    if s != "" {
      SubstituteNothing(s[1..], m);
    }
  }

  /** Replacing one character is a substitution. */
  lemma {:induction false} ReplaceIsSubstitution(s: string, c: char, r: string)
    ensures Replace(s, [c], r) == Substituted(s, map[c := r])
    decreases |s|
  {
    if s != "" {
      ReplaceIsSubstitution(s[1..], c, r);
      assert HasPrefix(s, [c]) <==> s[0] == c;
      assert s[|[c]|..] == s[1..];
    }
  }

  /** A further replacement adds to the substitution, if what has been put in so far does not
      contain the character. */
  lemma {:induction false} SubstituteMore(s: string, m: map<char, string>, c: char, r: string)
    requires c !in m && forall x :: x in m ==> c !in m[x]
    ensures Substituted(Substituted(s, m), map[c := r]) == Substituted(s, m[c := r])
    decreases |s|
  {
    if s != "" {
      var head := if s[0] in m then m[s[0]] else [s[0]];
      SubstitutedConcat(head, Substituted(s[1..], m), map[c := r]);
      SubstituteMore(s[1..], m, c, r);
      if s[0] in m {
        SubstituteNothing(head, map[c := r]);
      } else {
        assert Substituted(head, map[c := r]) == (if s[0] == c then r else head) + Substituted("", map[c := r]);
      }
    }
  }

  lemma AnotherEntity(s: string, m: map<char, string>, c: char, r: string)
    requires c !in m && forall x :: x in m ==> c !in m[x]
    ensures Replace(Substituted(s, m), [c], r) == Substituted(s, m[c := r])
  {
    ReplaceIsSubstitution(Substituted(s, m), c, r);
    SubstituteMore(s, m, c, r);
  }

  /** The sequence of replacements is the simultaneous substitution of the five characters. */
  lemma EncodedIsSubstitution(s: string)
    ensures Encoded(s) == Substituted(s, Entity)
  {
    var m1 := map['&' := "&amp;"];
    var m2 := m1['<' := "&lt;"];
    var m3 := m2['>' := "&gt;"];
    var m4 := m3['"' := "&quot;"];
    ReplaceIsSubstitution(s, '&', "&amp;");
    AnotherEntity(s, m1, '<', "&lt;");
    AnotherEntity(s, m2, '>', "&gt;");
    AnotherEntity(s, m3, '"', "&quot;");
    AnotherEntity(s, m4, '\'', "&apos;");
    assert m4['\'' := "&apos;"] == Entity;
    FiveReplacements(s);
  }

  lemma FiveReplacements(s: string)
    ensures Encoded(s)
         == Replace(Replace(Replace(Replace(Replace(s, "&", "&amp;"), "<", "&lt;"), ">", "&gt;"),
                            "\"", "&quot;"), "'", "&apos;")
  {
    hide Replace;
    var e := Entities;
    assert forall p :: p in e ==> p.1 != "";
    var e1, e2, e3, e4 := e[1..], e[1..][1..], e[1..][1..][1..], e[1..][1..][1..][1..];
    var s1 := Replace(s, "&", "" + "&amp;");
    var s2 := Replace(s1, "<", "" + "&lt;");
    var s3 := Replace(s2, ">", "" + "&gt;");
    var s4 := Replace(s3, "\"", "" + "&quot;");
    assert ReplaceAll(s, "", e) == ReplaceAll(s1, "", e1);
    assert ReplaceAll(s1, "", e1) == ReplaceAll(s2, "", e2);
    assert ReplaceAll(s2, "", e2) == ReplaceAll(s3, "", e3);
    assert ReplaceAll(s3, "", e3) == ReplaceAll(s4, "", e4);
    assert "" + "&amp;" == "&amp;" && "" + "&lt;" == "&lt;" && "" + "&gt;" == "&gt;";
    assert "" + "&quot;" == "&quot;" && "" + "&apos;" == "&apos;";
    assert e4[1..] == [];
    assert ReplaceAll(s4, "", e4) == ReplaceAll(Replace(s4, "'", "" + "&apos;"), "", e4[1..]);
  }

  method Encode(s: string) returns (r: string)
    ensures r == Substituted(s, Entity)
  {
    assert forall p :: p in Entities ==> p.1 != "";
    r := Escape(s, "", Entities);
    EncodedIsSubstitution(s);
  }

  // ---------------------------------------------------------------- undoing it

  /** What a browser makes of the entities. */
  function Decoded(s: string): string
    decreases |s|
  {
    if s == "" then ""
    else if HasPrefix(s, "&amp;") then "&" + Decoded(s[5..])
    else if HasPrefix(s, "&lt;") then "<" + Decoded(s[4..])
    else if HasPrefix(s, "&gt;") then ">" + Decoded(s[4..])
    else if HasPrefix(s, "&quot;") then "\"" + Decoded(s[6..])
    else if HasPrefix(s, "&apos;") then "'" + Decoded(s[6..])
    else [s[0]] + Decoded(s[1..])
  }

  lemma DecodeOne(c: char, rest: string)
    ensures Decoded((if c in Entity then Entity[c] else [c]) + rest) == [c] + Decoded(rest)
  {
    hide Decoded, HasPrefix;
    if c in Entity {
      DecodeEntity(c, rest);
    } else {
      DecodePlain(c, rest);
    }
  }

  lemma DecodeEntity(c: char, rest: string)
    requires c in Entity
    ensures Decoded(Entity[c] + rest) == [c] + Decoded(rest)
  {
    var head := Entity[c];
    var t := head + rest;
    assert t[|head|..] == rest && t[..|head|] == head;
    assert t[1] == head[1] && t[2] == head[2];
    if c == '&' {
      assert HasPrefix(t, "&amp;");
    } else if c == '<' {
      assert HasPrefix(t, "&lt;");
    } else if c == '>' {
      assert HasPrefix(t, "&gt;");
    } else if c == '"' {
      assert HasPrefix(t, "&quot;");
    } else {
      assert HasPrefix(t, "&apos;");
    }
  }

  lemma DecodePlain(c: char, rest: string)
    requires c !in Entity
    ensures Decoded([c] + rest) == [c] + Decoded(rest)
  {
    var t := [c] + rest;
    assert t[1..] == rest;
    assert t[0] == c != '&';
  }

  lemma {:induction false} SubstitutionDecodes(s: string)
    ensures Decoded(Substituted(s, Entity)) == s
    decreases |s|
  {
    if s != "" {
      SubstitutionDecodes(s[1..]);
      DecodeOne(s[0], Substituted(s[1..], Entity));
      assert [s[0]] + s[1..] == s;
    }
  }

  predicate IsMarkup(c: char) {
    c == '<' || c == '>' || c == '"' || c == '\''
  }

  lemma EntityIsPlain(c: char, i: nat)
    requires i < |if c in Entity then Entity[c] else [c]|
    ensures !IsMarkup((if c in Entity then Entity[c] else [c])[i])
  {
  }

  lemma {:induction false} SubstitutionIsPlain(s: string, i: nat)
    requires i < |Substituted(s, Entity)|
    ensures !IsMarkup(Substituted(s, Entity)[i])
    decreases |s|
  {
    hide IsMarkup;
    var head := if s[0] in Entity then Entity[s[0]] else [s[0]];
    if i < |head| {
      EntityIsPlain(s[0], i);
    } else {
      SubstitutionIsPlain(s[1..], i - |head|);
    }
  }

  /** Encoding loses nothing, and leaves no character that would start markup. */
  lemma HtmlRoundTrip(s: string)
    ensures Decoded(Encoded(s)) == s
    ensures forall i :: 0 <= i < |Encoded(s)| ==> !IsMarkup(Encoded(s)[i])
  {
    hide Encoded, Decoded, Substituted, IsMarkup;
    EncodedIsSubstitution(s);
    SubstitutionDecodes(s);
    forall i | 0 <= i < |Encoded(s)|
      ensures !IsMarkup(Encoded(s)[i])
    {
      SubstitutionIsPlain(s, i);
    }
  }
}
