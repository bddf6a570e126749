/** Numbers as they are spelled, with the digits written out, and what `parse_int` of
    util/parser.hpp makes of them. */
module Numerals {
  import opened Parser

  const LOWER := "0123456789abcdef"
  const UPPER := "0123456789ABCDEF"

  /** `c` is the digit that stands for `d`, in either case. */
  predicate IsDigit(c: char, d: nat) {
    d < 16 && (c == LOWER[d] || c == UPPER[d])
  }

  /** `t` is a numeral for `v`: its last digit stands for the remainder, and the digits in front of
      it for the quotient. Zeros in front change nothing. */
  predicate Spells(t: string, v: nat, base: nat)
    requires base == 10 || base == 16
  {
    if t == "" then v == 0
    else IsDigit(t[|t| - 1], v % base) && Spells(t[..|t| - 1], v / base, base)
  }

  /** No digit comes first. */
  predicate NoDigit(t: string, base: nat)
    requires base == 10 || base == 16
  {
    t == "" || forall d :: 0 <= d < base ==> !IsDigit(t[0], d)
  }

  lemma DigitsOf(c: char, d: nat, base: nat)
    requires base == 10 || base == 16
    ensures Matches(c, base) && CharToNum(c, base) == d <==> d < base && IsDigit(c, d)
  {
    if d < 16 {
      TableEntry(d);
    }
  }

  lemma TableEntry(d: nat)
    requires d < 16
    ensures LOWER[d] as int == if d < 10 then '0' as int + d else 'a' as int + d - 10
    ensures UPPER[d] as int == if d < 10 then '0' as int + d else 'A' as int + d - 10
  {
  }

  lemma MatchesIsDigit(c: char, base: nat)
    requires base == 10 || base == 16
    ensures Matches(c, base) <==> exists d :: 0 <= d < base && IsDigit(c, d)
  {
    if Matches(c, base) {
      DigitsOf(c, CharToNum(c, base), base);
    }
    if d :| 0 <= d < base && IsDigit(c, d) {
      DigitsOf(c, d, base);
    }
  }

  /** What the parser takes for the value of a run of digits is what they spell. */
  lemma {:induction false} ValueIsSpelled(t: string, v: nat, base: nat)
    requires base == 10 || base == 16
    ensures AllDigits(t, base) && Value(t, base) == v <==> Spells(t, v, base)
    decreases |t|
  {
    hide Matches, CharToNum, IsDigit;
    if t != "" {
      var c, front := t[|t| - 1], t[..|t| - 1];
      DigitsOf(c, v % base, base);
      ValueIsSpelled(front, v / base, base);
      assert t == front + [c];
      if AllDigits(t, base) {
        assert Matches(t[|t| - 1], base) && forall i :: 0 <= i < |front| ==> Matches(t[i], base);
        DivModOf(Value(front, base), CharToNum(c, base), base);
      }
    }
  }

  lemma DivModOf(q: nat, r: nat, base: nat)
    requires base == 10 || base == 16
    requires r < base
    ensures (q * base + r) / base == q && (q * base + r) % base == r
  {
  }

  /** `parse_int` takes a numeral of at least one digit for a number that fits, and stops where the
      digits end; there is no other text that it accepts. */
  lemma ParseIntExactly(s: string, base: nat, max: nat, v: nat, rest: string)
    requires base == 10 || base == 16
    ensures ParseInt(s, base, max) == Int(v, rest)
       <==> && |rest| < |s| && s[|s| - |rest|..] == rest && v <= max
            && Spells(s[..|s| - |rest|], v, base) && NoDigit(rest, base)
  {
    hide Matches, CharToNum, IsDigit, Spells;
    if ParseInt(s, base, max) == Int(v, rest) {
      var n := DigitRun(s, base);
      assert |rest| == |s| - n;
      ValueIsSpelled(s[..n], v, base);
      if rest != "" {
        assert rest[0] == s[n];
        MatchesIsDigit(rest[0], base);
      }
    } else if |rest| < |s| && s[|s| - |rest|..] == rest && v <= max
              && Spells(s[..|s| - |rest|], v, base) && NoDigit(rest, base) {
      var t := s[..|s| - |rest|];
      ValueIsSpelled(t, v, base);
      assert s == t + rest;
      if rest != "" {
        MatchesIsDigit(rest[0], base);
      }
      DigitRunOf(t, rest, base);
    }
  }

  /** The form in which it is used: a numeral in front of something else. */
  lemma ReadsNumeral(t: string, v: nat, rest: string, base: nat, max: nat)
    requires base == 10 || base == 16
    requires t != "" && v <= max && Spells(t, v, base) && NoDigit(rest, base)
    ensures ParseInt(t + rest, base, max) == Int(v, rest)
  {
    hide Spells, NoDigit, ParseInt;
    var s := t + rest;
    assert s[..|s| - |rest|] == t && s[|s| - |rest|..] == rest;
    ParseIntExactly(s, base, max, v, rest);
  }

  lemma NumeralRead(s: string, base: nat, max: nat) returns (t: string)
    requires base == 10 || base == 16
    requires ParseInt(s, base, max).Int?
    ensures var p := ParseInt(s, base, max);
            t != "" && s == t + p.rest && p.value <= max && Spells(t, p.value, base) && NoDigit(p.rest, base)
  {
    hide Spells, NoDigit, ParseInt;
    var p := ParseInt(s, base, max);
    ParseIntExactly(s, base, max, p.value, p.rest);
    t := s[..|s| - |p.rest|];
  }

  // ---------------------------------------------------------------- printed numbers

  /** Printed digits are lower case. */
  lemma PrintedDigit(d: nat)
    requires d < 16
    ensures DigitChar(d) == LOWER[d]
  {
    TableEntry(d);
  }

  predicate IsLower(t: string) {
    forall c :: c in t ==> c in LOWER
  }

  /** A printed number is its shortest numeral, in lower case. */
  lemma {:induction false} PrintIsCanonical(n: nat, base: nat)
    requires base == 10 || base == 16
    ensures Spells(Print(n, base), n, base) && IsLower(Print(n, base))
    ensures if n == 0 then Print(n, base) == "0" else Print(n, base)[0] != '0'
  {
    hide DigitChar, LOWER, UPPER, IsDigit, Spells, IsLower, Print;
    PrintUnfolds(n, base);
    var d, front := n % base, if n < base then "" else Print(n / base, base);
    PrintedDigit(d);
    LowerIsDigit(d);
    if n < base {
      FirstPrinted(n);
      NoNumeral(base);
      assert "" + [DigitChar(d)] == Print(n, base);
    } else {
      PrintIsCanonical(n / base, base);
    }
    OneMoreDigit(front, n, base);
  }

  lemma PrintUnfolds(n: nat, base: nat)
    requires base == 10 || base == 16
    ensures Print(n, base) == (if n < base then "" else Print(n / base, base)) + [DigitChar(n % base)]
  {
  }

  lemma NoNumeral(base: nat)
    requires base == 10 || base == 16
    ensures Spells("", 0, base) && IsLower("")
  {
  }

  lemma OneMoreDigit(front: string, n: nat, base: nat)
    requires base == 10 || base == 16
    requires Spells(front, n / base, base) && IsLower(front)
    requires var c := DigitChar(n % base); IsDigit(c, n % base) && c in LOWER
    ensures Spells(front + [DigitChar(n % base)], n, base) && IsLower(front + [DigitChar(n % base)])
  {
    hide DigitChar, LOWER, UPPER, IsDigit;
    var t := front + [DigitChar(n % base)];
    assert t[..|t| - 1] == front;
  }

  lemma LowerIsDigit(d: nat)
    requires d < 16
    ensures IsDigit(LOWER[d], d) && LOWER[d] in LOWER
  {
  }

  lemma FirstPrinted(d: nat)
    requires d < 16
    ensures DigitChar(d) == '0' <==> d == 0
  {
  }
}
