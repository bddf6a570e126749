/** The parser primitives of util/parser.hpp that address parsing is built on.

    A parser is described by what it does to the input that is still unread; the class
    `Cursor` is the source's shared `parseable_range`, whose `it` the parsers advance. */
module Parser {
  import opened Options

  /** The characters that count as digits in the given base. */
  predicate Matches(c: char, base: nat) {
    if 1 <= base <= 10 then
      '0' <= c && c as int <= '0' as int + base - 1
    else if 11 <= base <= 36 then
      || '0' <= c <= '9'
      || ('a' <= c && c as int <= 'a' as int + base - 11)
      || ('A' <= c && c as int <= 'A' as int + base - 11)
    else
      false
  }

  function CharToNum(c: char, base: nat): (d: nat)
    requires Matches(c, base)
    ensures d < base
  {
    if '0' <= c <= '9' then c as int - '0' as int
    else if 'a' <= c <= 'z' then 10 + (c as int - 'a' as int)
    else 10 + (c as int - 'A' as int)
  }

  /** Length of the longest prefix of `s` made of digits only. */
  function DigitRun(s: string, base: nat): (n: nat)
    ensures n <= |s|
    ensures forall i :: 0 <= i < n ==> Matches(s[i], base)
    ensures n < |s| ==> !Matches(s[n], base)
  {
    if s == "" || !Matches(s[0], base) then 0 else 1 + DigitRun(s[1..], base)
  }

  predicate AllDigits(s: string, base: nat) {
    forall i :: 0 <= i < |s| ==> Matches(s[i], base)
  }

  /** The number that a string of digits denotes. */
  function Value(s: string, base: nat): nat
    requires AllDigits(s, base)
  {
    if s == "" then 0
    else Value(s[..|s| - 1], base) * base + CharToNum(s[|s| - 1], base)
  }

  datatype IntParse = NoInt | Int(value: nat, rest: string)

  /** An unsigned integer is the longest non-empty run of digits, provided that it fits. */
  function ParseInt(s: string, base: nat, max: nat): (p: IntParse)
    ensures p.Int? ==> |p.rest| < |s| && p.value <= max
  {
    var n := DigitRun(s, base);
    if n == 0 || Value(s[..n], base) > max then NoInt else Int(Value(s[..n], base), s[n..])
  }

  predicate StartsWith(s: string, c: char) {
    s != "" && s[0] == c
  }

  /** Reading more digits never makes the value smaller, so an overflow noticed half-way
      is an overflow of the whole number. */
  lemma {:induction false} ValueOfPrefix(s: string, base: nat, k: nat)
    requires AllDigits(s, base) && k <= |s|
    ensures Value(s[..k], base) <= Value(s, base)
    decreases |s|
  {
    if k == |s| {
      assert s[..k] == s;
    } else {
      var t := s[..|s| - 1];
      assert t[..k] == s[..k];
      ValueOfPrefix(t, base, k);
      assert Matches(s[0], base);
      Grows(Value(t, base), base);
    }
  }

  lemma Grows(a: nat, b: nat)
    requires b > 0
    ensures a <= a * b
  {
    assert a * b == a + a * (b - 1);
  }

  /** The source's cursor over the text being parsed. */
  class Cursor {
    const text: string
    var it: nat

    constructor (text: string)
      ensures Valid() && Rest() == text
    {
      this.text := text;
      it := 0;
    }

    ghost predicate Valid()
      reads this
    {
      it <= |text|
    }

    ghost function Rest(): string
      reads this
      requires Valid()
    {
      text[it..]
    }

    method Eol() returns (b: bool)
      requires Valid()
      ensures b == (Rest() == "")
    {
      b := it == |text|;
    }

    /** Consumes one character if it is `ch`. */
    method Lit(ch: char) returns (ok: bool)
      requires Valid()
      modifies this
      ensures Valid()
      ensures ok == StartsWith(old(Rest()), ch)
      ensures Rest() == if ok then old(Rest())[1..] else old(Rest())
    {
      if it < |text| && text[it] == ch {
        it := it + 1;
        ok := true;
      } else {
        ok := false;
      }
    }

    /** Reads an unsigned number, checking for overflow digit by digit. A failure leaves
        the cursor where it was. */
    method ReadInt(base: nat, max: nat) returns (r: Option<nat>)
      requires Valid()
      requires 1 <= base <= 36
      modifies this
      ensures Valid()
      ensures match ParseInt(old(Rest()), base, max)
              case NoInt => r == None && it == old(it)
              case Int(v, rest) => r == Some(v) && Rest() == rest
    {
      hide Value, DigitRun;
      ghost var s := Rest();
      ghost var n := DigitRun(s, base);
      if it == |text| || !Matches(text[it], base) {
        return None;
      }
      var oldIt := it;
      var v := 0;
      ValueOfNothing(base);
      while it < |text| && Matches(text[it], base)
        invariant oldIt <= it <= oldIt + n
        invariant v <= max && v == Value(s[..it - oldIt], base)
      {
        var d := CharToNum(text[it], base);
        ghost var k := it - oldIt;
        assert s[..k + 1] == s[..k] + [text[it]];
        ValueOfLast(s[..k], text[it], base);
        if v > max / base || max - v * base < d {
          OverflowTest(v, d, base, max);
          ValueOfPrefix(s[..n], base, k + 1);
          assert s[..n][..k + 1] == s[..k + 1];
          it := oldIt;
          return None;
        }
        OverflowTest(v, d, base, max);
        v := v * base + d;
        it := it + 1;
      }
      r := Some(v);
    }
  }

  /** The two-step overflow test of the source is the test one would write without a
      bound on the intermediate values. */
  lemma OverflowTest(v: nat, d: nat, base: nat, max: nat)
    requires base > 0
    ensures (v > max / base || max - v * base < d) <==> v * base + d > max
  {
    if v > max / base {
      MulMono(max / base + 1, v, base);
    }
  }

  lemma MulMono(a: nat, b: nat, c: nat)
    requires a <= b
    ensures a * c <= b * c
  {
    assert (b - a) * c >= 0;
  }

  /** Digits as printf writes them: lower case, most significant first. */
  function DigitChar(d: nat): (c: char)
    requires d < 16
    ensures d < 10 ==> Matches(c, 10) && CharToNum(c, 10) == d
    ensures Matches(c, 16) && CharToNum(c, 16) == d
  {
    if d < 10 then '0' + d as char else 'a' + (d - 10) as char
  }

  /** What `%d` (base 10) and `%x` (base 16) print. */
  function Print(n: nat, base: nat): (s: string)
    requires base == 10 || base == 16
    ensures s != ""
    ensures AllDigits(s, base)
  {
    if n < base then [DigitChar(n)] else Print(n / base, base) + [DigitChar(n % base)]
  }

  lemma ValueOfNothing(base: nat)
    ensures Value("", base) == 0
  {
  }

  lemma ValueOfLast(s: string, c: char, base: nat)
    requires AllDigits(s, base) && Matches(c, base)
    ensures Value(s + [c], base) == Value(s, base) * base + CharToNum(c, base)
  {
    assert (s + [c])[..|s|] == s;
  }

  lemma {:induction false} PrintDenotes(n: nat, base: nat)
    requires base == 10 || base == 16
    ensures Value(Print(n, base), base) == n
  {
    hide Value, CharToNum, Matches, AllDigits, DigitChar;
    if n < base {
      ValueOfNothing(base);
      assert "" + [DigitChar(n)] == [DigitChar(n)];
      NoDigits(base);
      DigitStandsFor(n, base);
      ValueOfLast("", DigitChar(n), base);
    } else {
      PrintDenotes(n / base, base);
      DigitStandsFor(n % base, base);
      ValueOfLast(Print(n / base, base), DigitChar(n % base), base);
    }
  }

  lemma NoDigits(base: nat)
    ensures AllDigits("", base)
  {
  }

  lemma DigitStandsFor(d: nat, base: nat)
    requires base == 10 || base == 16
    requires d < base
    ensures Matches(DigitChar(d), base) && CharToNum(DigitChar(d), base) == d
  {
  }

  lemma {:induction false} DigitRunOf(d: string, tail: string, base: nat)
    requires AllDigits(d, base)
    requires tail == "" || !Matches(tail[0], base)
    ensures DigitRun(d + tail, base) == |d|
  {
    if d == "" {
      assert d + tail == tail;
    } else {
      assert (d + tail)[1..] == d[1..] + tail;
      DigitRunOf(d[1..], tail, base);
    }
  }

  /** Reading back a printed number stops exactly where the number ends. */
  lemma PrintRoundTrip(n: nat, base: nat, max: nat, tail: string)
    requires base == 10 || base == 16
    requires n <= max
    requires tail == "" || !Matches(tail[0], base)
    ensures ParseInt(Print(n, base) + tail, base, max) == Int(n, tail)
  {
    var d := Print(n, base);
    DigitRunOf(d, tail, base);
    PrintDenotes(n, base);
    assert (d + tail)[..|d|] == d;
  }
}
